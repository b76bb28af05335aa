/** `SoapNotesService.GenerateSoapNotesAsync`: prompt, one call to the
    generateContent endpoint, reply text, fence removal, deserialisation
    and the concise note. The network and the JSON library are parameters. */
module Services {
  import opened Wrappers
  import opened Errors
  import opened Strings
  import opened Json
  import opened Http
  import opened ResponseModels
  import opened SoapPrompt
  import opened GeminiEnvelope
  import opened ReplySanitizer
  import opened ConciseNote

  const Endpoint: string :=
    "https://generativelanguage.googleapis.com/v1beta/models/gemini-2.0-flash:generateContent"
  const ApiKeyHeader: string := "X-Goog-Api-Key"
  const ApiKeySetting: string := "Gemini:ApiKey"
  const JsonMediaType: string := "application/json"

  /** What `JsonSerializer.Deserialize<SoapNotesResponse>` makes of a text:
      an exception, the JSON literal `null`, or a note. */
  datatype Deserialized = Malformed | NullValue | Value(note: SoapNotesResponse)

  /** The JSON library: `JsonDocument.Parse` (`None` when it throws) and the
      case-insensitive note deserialiser. */
  datatype JsonLibrary = JsonLibrary(
    parse: string -> Option<Json>,
    deserialize: string -> Deserialized)

  /** Deserialising the sanitised text; the library rejects a `null` text. */
  function Deserialize(json: JsonLibrary, text: NString): (r: Result<Option<SoapNotesResponse>, Error>)
    ensures text.None? ==> r == Failure(ArgumentNull("json"))
    ensures text.Some? ==>
      && (r == Failure(JsonException) <==> json.deserialize(text.value).Malformed?)
      && (r == Success(None) <==> json.deserialize(text.value).NullValue?)
      && (json.deserialize(text.value).Value? ==> r == Success(Some(json.deserialize(text.value).note)))
  {
    if text.None? then Failure(ArgumentNull("json"))
    else match json.deserialize(text.value)
      case Malformed => Failure(JsonException)
      case NullValue => Success(None)
      case Value(note) => Success(Some(note))
  }

  /** Everything after the reply text has been read. */
  function NoteFromReply(json: JsonLibrary, text: NString): (r: Result<SoapNotesResponse, Error>)
    ensures text.None? ==> r == Failure(ArgumentNull("json"))
    ensures r.Success? ==> WithinCaps(r.value)
  {
    var soapNote :- Deserialize(json, Sanitize(text));
    BuildConcise(soapNote)
  }

  /** The request as it is sent. */
  function OutgoingRequest(apiKey: NString, narrative: NString): (req: HttpRequest)
    ensures req.verb == Post && req.requestUri == Endpoint
    ensures req.headers == [(ApiKeyHeader, apiKey)]
    ensures req.content.Some? && req.content.value.mediaType == JsonMediaType
    ensures Navigate(req.content.value.body, RequestTextPath) == Success(JString(BuildPrompt(narrative)))
  {
    HttpRequest(Post, Endpoint, [(ApiKeyHeader, apiKey)],
      Some(StringContent(RequestBody(BuildPrompt(narrative)), JsonMediaType)))
  }

  /** The whole call, for an upstream `send` and a JSON library. */
  function Generate(narrative: NString, apiKey: NString,
                    send: HttpRequest -> HttpResponse, json: JsonLibrary): (r: Result<SoapNotesResponse, Error>)
    ensures r.Success? ==> WithinCaps(r.value)
    ensures r.Success? ==> r.value != NewSoapNotesResponse()
  {
    var response :- EnsureSuccessStatusCode(send(OutgoingRequest(apiKey, narrative)));
    match json.parse(response.body)
      case None => Failure(JsonException)
      case Some(root) =>
        var text :- ReplyText(root);
        NoteFromReply(json, text)
  }

  class SoapNotesService {
    const httpClient: HttpRequest -> HttpResponse
    const apiKey: NString
    const json: JsonLibrary

    /** The configuration indexer yields `null` for a missing setting. */
    constructor(httpClient: HttpRequest -> HttpResponse, configuration: map<string, string>, json: JsonLibrary)
      ensures this.httpClient == httpClient && this.json == json
      ensures apiKey == if ApiKeySetting in configuration then Some(configuration[ApiKeySetting]) else None
    {
      this.httpClient := httpClient;
      this.apiKey := if ApiKeySetting in configuration then Some(configuration[ApiKeySetting]) else None;
      this.json := json;
    }

    method GenerateSoapNotes(patientNarrative: NString) returns (r: Result<SoapNotesResponse, Error>)
      ensures r == Generate(patientNarrative, apiKey, httpClient, json)
    {
      var prompt := BuildPrompt(patientNarrative);
      var requestBody := RequestBody(prompt);
      var request := new HttpRequestMessage(Post, Endpoint);
      request.AddHeader(ApiKeyHeader, apiKey);
      request.SetContent(StringContent(requestBody, JsonMediaType));
      assert request.Snapshot() == OutgoingRequest(apiKey, patientNarrative);
      var response := httpClient(request.Snapshot());
      var _ :- EnsureSuccessStatusCode(response);
      var aiResponse := json.parse(response.body);
      if aiResponse.None? {
        return Failure(JsonException);
      }
      var text :- ReplyText(aiResponse.value);
      ghost var reply := text;
      if !IsNullOrEmpty(text) {
        text := Some(Clean(text.value));
      }
      assert text == Sanitize(reply);
      var soapNote :- Deserialize(json, text);
      var conciseResponse :- BuildConcise(soapNote);
      // The `?? new SoapNotesResponse()` fallback cannot apply: the note was
      // just built (`Generate` also proves it differs from a new note).
      r := Success(conciseResponse);
    }
  }

  /** The request goes to the fixed endpoint with the key header, and its
      body carries the prompt, from which the narrative reads back. */
  lemma OutgoingRequestCarriesNarrative(apiKey: NString, narrative: string)
    ensures var req := OutgoingRequest(apiKey, Some(narrative));
      && req.verb == Post && req.requestUri == Endpoint
      && req.headers == [(ApiKeyHeader, apiKey)]
      && req.content.Some? && req.content.value.mediaType == JsonMediaType
      && Navigate(req.content.value.body, RequestTextPath) == Success(JString(BuildPrompt(Some(narrative))))
      && NarrativeOf(BuildPrompt(Some(narrative))) == Some(narrative)
  {
    RequestBodyCarriesPrompt(BuildPrompt(Some(narrative)));
    NarrativeOfPrompt(narrative);
  }

  /** A status outside 200-299 fails the call with that status. */
  lemma NonSuccessStatusFails(narrative: NString, apiKey: NString,
                              send: HttpRequest -> HttpResponse, json: JsonLibrary)
    requires !IsSuccessStatusCode(send(OutgoingRequest(apiKey, narrative)).statusCode)
    ensures Generate(narrative, apiKey, send, json) ==
      Failure(HttpRequestError(send(OutgoingRequest(apiKey, narrative)).statusCode))
  {
  }

  /** A body that does not parse, or an envelope without the reply text,
      fails the call with the error of the step that failed. */
  lemma EnvelopeFailureFails(narrative: NString, apiKey: NString,
                             send: HttpRequest -> HttpResponse, json: JsonLibrary)
    requires IsSuccessStatusCode(send(OutgoingRequest(apiKey, narrative)).statusCode)
    ensures var body := send(OutgoingRequest(apiKey, narrative)).body;
      json.parse(body).None? ==> Generate(narrative, apiKey, send, json) == Failure(JsonException)
    ensures var body := send(OutgoingRequest(apiKey, narrative)).body;
      json.parse(body).Some? && ReplyText(json.parse(body).value).Failure? ==>
        Generate(narrative, apiKey, send, json) == Failure(ReplyText(json.parse(body).value).error)
  {
  }

  /** An upstream answer without `candidates` fails the call. */
  lemma MissingCandidatesFails(narrative: NString, apiKey: NString,
                               send: HttpRequest -> HttpResponse, json: JsonLibrary)
    requires IsSuccessStatusCode(send(OutgoingRequest(apiKey, narrative)).statusCode)
    requires var root := json.parse(send(OutgoingRequest(apiKey, narrative)).body);
      root.Some? && root.value.JObject?
      && forall i | 0 <= i < |root.value.members| :: root.value.members[i].0 != "candidates"
    ensures Generate(narrative, apiKey, send, json) == Failure(KeyNotFound("candidates"))
  {
    MissingCandidates(json.parse(send(OutgoingRequest(apiKey, narrative)).body).value);
  }

  /** After the envelope: a `null` text, an undeserialisable text, a `null`
      note, a `null` plan and a `null` list each fail; otherwise the result
      is the concise form of the deserialised note. */
  lemma NoteFromReplyOutcomes(json: JsonLibrary, text: NString)
    ensures text.None? ==> NoteFromReply(json, text) == Failure(ArgumentNull("json"))
    ensures text.Some? ==>
      var d := json.deserialize(Sanitize(text).value);
      && (d.Malformed? ==> NoteFromReply(json, text) == Failure(JsonException))
      && (d.NullValue? ==> NoteFromReply(json, text) == Failure(NullReference))
      && (d.Value? && d.note.plan.None? ==> NoteFromReply(json, text) == Failure(NullReference))
      && (d.Value? && d.note.plan.Some? && !ListsPresent(d.note.plan.value) ==>
            NoteFromReply(json, text) == Failure(ArgumentNull("source")))
      && (d.Value? ==> NoteFromReply(json, text) == BuildConcise(Some(d.note)))
  {
  }

  /** A fenced reply yields the same outcome as the bare one. */
  lemma FencedReplyLikeBare(json: JsonLibrary, x: string)
    ensures NoteFromReply(json, Some(JsonFence + x + Fence)) == NoteFromReply(json, Some(x))
  {
    SanitizeUnwrapsFencedReply(x);
  }

  /** A successful call passed every stage, and its note is the concise
      form of what the upstream's sanitised reply deserialised to. */
  lemma SuccessPath(narrative: NString, apiKey: NString,
                    send: HttpRequest -> HttpResponse, json: JsonLibrary)
    requires Generate(narrative, apiKey, send, json).Success?
    ensures var response := send(OutgoingRequest(apiKey, narrative));
      && IsSuccessStatusCode(response.statusCode)
      && json.parse(response.body).Some?
      && var text := ReplyText(json.parse(response.body).value);
         && text.Success? && text.value.Some?
         && var d := json.deserialize(Sanitize(text.value).value);
            && d.Value?
            && Generate(narrative, apiKey, send, json) == BuildConcise(Some(d.note))
  {
    var response := send(OutgoingRequest(apiKey, narrative));
    assert EnsureSuccessStatusCode(response).Success?;
    var root := json.parse(response.body).value;
    assert ReplyText(root).Success?;
  }
}
