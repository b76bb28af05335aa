/** `SoapNoteController.Generate`: reject a blank narrative, otherwise hand
    it to the service and return its note. */
module SoapNoteController {
  import opened Wrappers
  import opened Errors
  import opened Strings
  import opened ResponseModels

  const EmptyNarrativeMessage: string := "Patient narrative cannot be empty."

  /** `BadRequest(message)`, `Ok(note)`, or the service's exception escaping the action. */
  datatype ActionResult =
    | BadRequest(message: string)
    | Ok(note: SoapNotesResponse)
    | Faulted(error: Error)

  /** The action, for a service `GenerateSoapNotesAsync` given as a function. */
  function Generate(patientNarrative: NString,
                    service: NString -> Result<SoapNotesResponse, Error>): (r: ActionResult)
    ensures r.BadRequest? <==> IsNullOrWhiteSpace(patientNarrative)
    ensures r.BadRequest? ==> r.message == EmptyNarrativeMessage
    ensures r.Ok? ==> service(patientNarrative) == Success(r.note)
    ensures r.Faulted? ==> service(patientNarrative) == Failure(r.error)
  {
    if IsNullOrWhiteSpace(patientNarrative) then
      BadRequest(EmptyNarrativeMessage)
    else
      match service(patientNarrative)
      case Success(note) => Ok(note)
      case Failure(e) => Faulted(e)
  }

  /** A blank narrative never reaches the service: the answer is the same
      whatever the service would do. */
  lemma BlankNarrativeSkipsService(patientNarrative: NString,
                                   s1: NString -> Result<SoapNotesResponse, Error>,
                                   s2: NString -> Result<SoapNotesResponse, Error>)
    requires IsNullOrWhiteSpace(patientNarrative)
    ensures Generate(patientNarrative, s1) == Generate(patientNarrative, s2)
  {
  }

  /** Any other narrative goes to the service exactly as received: only
      the service's answer for that very text matters. */
  lemma NarrativePassedVerbatim(patientNarrative: string,
                                s1: NString -> Result<SoapNotesResponse, Error>,
                                s2: NString -> Result<SoapNotesResponse, Error>)
    requires !IsNullOrWhiteSpace(Some(patientNarrative))
    requires s1(Some(patientNarrative)) == s2(Some(patientNarrative))
    ensures Generate(Some(patientNarrative), s1) == Generate(Some(patientNarrative), s2)
    ensures Generate(Some(patientNarrative), s1).BadRequest? == false
  {
  }
}
