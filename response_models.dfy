/** `SoapNotesResponse` and `PlanDetail`, the note the service returns. */
module ResponseModels {
  import opened Wrappers
  import opened Strings

  /** A `List<string>` property, which deserialisation may leave `null`. */
  type PlanList = Option<seq<NString>>

  datatype PlanDetail = PlanDetail(
    investigations: PlanList,
    medications: PlanList,
    lifestyleAdvice: PlanList,
    referrals: PlanList,
    monitoring: PlanList)

  /** Four strings and the plan; there is no raw-response member. */
  datatype SoapNotesResponse = SoapNotesResponse(
    subjective: NString,
    objective: NString,
    assessment: NString,
    plan: Option<PlanDetail>,
    htmlFormat: NString)

  /** The five plan lists in declaration order. */
  function PlanLists(p: PlanDetail): seq<PlanList> {
    [p.investigations, p.medications, p.lifestyleAdvice, p.referrals, p.monitoring]
  }

  /** `new PlanDetail()`: every list is initialised to a new empty list. */
  function NewPlanDetail(): (p: PlanDetail)
    ensures |PlanLists(p)| == 5
    ensures forall k | 0 <= k < 5 :: PlanLists(p)[k] == Some([])
  {
    PlanDetail(Some([]), Some([]), Some([]), Some([]), Some([]))
  }

  /** `new SoapNotesResponse()`: no member has an initialiser, so all are `null`. */
  function NewSoapNotesResponse(): (r: SoapNotesResponse)
    ensures r.subjective.None? && r.objective.None? && r.assessment.None?
    ensures r.plan.None? && r.htmlFormat.None?
  {
    SoapNotesResponse(None, None, None, None, None)
  }

  /** A plan consists of its five lists and nothing else. A bookkeeping
      fact: it justifies reasoning about a plan through `PlanLists`. */
  lemma PlanDeterminedByLists(p: PlanDetail, q: PlanDetail)
    requires PlanLists(p) == PlanLists(q)
    ensures p == q
  {
    assert PlanLists(p)[0] == PlanLists(q)[0] && PlanLists(p)[4] == PlanLists(q)[4];
  }
}
