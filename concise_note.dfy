/** The concise note: the deserialised note with each plan list cut to a
    fixed number of items. */
module ConciseNote {
  import opened Wrappers
  import opened Errors
  import opened Strings
  import opened ResponseModels

  const InvestigationsCap: nat := 2
  const MedicationsCap: nat := 2
  const LifestyleAdviceCap: nat := 2
  const ReferralsCap: nat := 1
  const MonitoringCap: nat := 2

  /** The caps in the order of `PlanLists`. */
  const Caps: seq<nat> :=
    [InvestigationsCap, MedicationsCap, LifestyleAdviceCap, ReferralsCap, MonitoringCap]

  function Min(a: nat, b: nat): nat {
    if a < b then a else b
  }

  /** `Take(n)`: the first min(|s|, n) items of `s`, in their order. */
  function Take<T>(s: seq<T>, n: nat): (r: seq<T>)
    ensures |r| == Min(|s|, n)
    ensures r == s[..|r|]
  {
    if n == 0 || s == [] then [] else [s[0]] + Take(s[1..], n - 1)
  }

  /** Taking again with the same count changes nothing. */
  lemma TakeIdempotent<T>(s: seq<T>, n: nat)
    ensures Take(Take(s, n), n) == Take(s, n)
  {
  }

  /** Every plan list is present (not `null`). */
  predicate ListsPresent(p: PlanDetail) {
    && p.investigations.Some?
    && p.medications.Some?
    && p.lifestyleAdvice.Some?
    && p.referrals.Some?
    && p.monitoring.Some?
  }

  /** A note of the concise shape: its plan and every list are present,
      and no list is longer than its cap. */
  predicate WithinCaps(n: SoapNotesResponse) {
    && n.plan.Some?
    && ListsPresent(n.plan.value)
    && |PlanLists(n.plan.value)| == |Caps|
    && forall k | 0 <= k < |Caps| :: |PlanLists(n.plan.value)[k].value| <= Caps[k]
  }

  /** The object initialiser that builds the concise note. Reading through a
      `null` note or plan is a `NullReference`; `Take` on a `null` list
      rejects its `source`. The strings are copied and each list is cut to
      its cap. */
  function BuildConcise(soapNote: Option<SoapNotesResponse>): (r: Result<SoapNotesResponse, Error>)
    ensures soapNote.None? ==> r == Failure(NullReference)
    ensures soapNote.Some? && soapNote.value.plan.None? ==> r == Failure(NullReference)
    ensures soapNote.Some? && soapNote.value.plan.Some? && !ListsPresent(soapNote.value.plan.value)
      ==> r == Failure(ArgumentNull("source"))
    ensures r.Success? <==>
      soapNote.Some? && soapNote.value.plan.Some? && ListsPresent(soapNote.value.plan.value)
    ensures r.Success? ==>
      var n, c := soapNote.value, r.value;
      && c.subjective == n.subjective
      && c.objective == n.objective
      && c.assessment == n.assessment
      && c.htmlFormat == n.htmlFormat
      && c.plan.Some?
      && |PlanLists(c.plan.value)| == |PlanLists(n.plan.value)| == |Caps|
      && forall k | 0 <= k < |Caps| :: PlanLists(c.plan.value)[k] ==
           Some(Take(PlanLists(n.plan.value)[k].value, Caps[k]))
    ensures r.Success? ==> WithinCaps(r.value)
  {
    if soapNote.None? then Failure(NullReference)
    else
      var n := soapNote.value;
      if n.plan.None? then Failure(NullReference)
      else
        var p := n.plan.value;
        if !ListsPresent(p) then
          Failure(ArgumentNull("source"))
        else
          Success(SoapNotesResponse(
            n.subjective,
            n.objective,
            n.assessment,
            Some(PlanDetail(
              Some(Take(p.investigations.value, InvestigationsCap)),
              Some(Take(p.medications.value, MedicationsCap)),
              Some(Take(p.lifestyleAdvice.value, LifestyleAdviceCap)),
              Some(Take(p.referrals.value, ReferralsCap)),
              Some(Take(p.monitoring.value, MonitoringCap)))),
            n.htmlFormat))
  }

  /** Each list of the concise plan holds min(L, cap) items, which are the
      first items of the original list in their original order. */
  lemma ConcisePlanIsPrefix(soapNote: Option<SoapNotesResponse>, k: nat)
    requires BuildConcise(soapNote).Success?
    requires k < |Caps|
    ensures var before := PlanLists(soapNote.value.plan.value)[k].value;
      var after := PlanLists(BuildConcise(soapNote).value.plan.value)[k];
      && after.Some?
      && |after.value| == Min(|before|, Caps[k])
      && after.value == before[..|after.value|]
  {
  }

  /** A concise note is already concise: building it again returns it. */
  lemma BuildConciseIdempotent(soapNote: Option<SoapNotesResponse>)
    requires BuildConcise(soapNote).Success?
    ensures BuildConcise(Some(BuildConcise(soapNote).value)) == BuildConcise(soapNote)
  {
    var c := BuildConcise(soapNote).value;
    var p := soapNote.value.plan.value;
    assert PlanLists(c.plan.value)[0] == Some(Take(p.investigations.value, InvestigationsCap));
    assert PlanLists(c.plan.value)[1] == Some(Take(p.medications.value, MedicationsCap));
    assert PlanLists(c.plan.value)[2] == Some(Take(p.lifestyleAdvice.value, LifestyleAdviceCap));
    assert PlanLists(c.plan.value)[3] == Some(Take(p.referrals.value, ReferralsCap));
    assert PlanLists(c.plan.value)[4] == Some(Take(p.monitoring.value, MonitoringCap));
    TakeIdempotent(p.investigations.value, InvestigationsCap);
    TakeIdempotent(p.medications.value, MedicationsCap);
    TakeIdempotent(p.lifestyleAdvice.value, LifestyleAdviceCap);
    TakeIdempotent(p.referrals.value, ReferralsCap);
    TakeIdempotent(p.monitoring.value, MonitoringCap);
  }
}
