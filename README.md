# Mediscribe SOAP-note generation, modelled in Dafny

Mediscribe turns a patient's free-text narrative into a SOAP note
(Subjective, Objective, Assessment, Plan, plus an HTML rendering). The
controller rejects a blank narrative; otherwise the service builds a fixed
instruction prompt around the narrative, posts it once to Gemini's
`generateContent` endpoint, reads `candidates[0].content.parts[0].text` out
of the answer, strips markdown code fences, deserialises the text into a
`SoapNotesResponse`, and returns a concise copy whose plan lists are cut to
2/2/2/1/2 items.

The model follows the code's own structure:

| file | module | models |
|---|---|---|
| `wrappers.dfy` | `Wrappers` | `Option` for C# `null`, `Result` for an escaping exception |
| `errors.dfy` | `Errors` | the exceptions the call can end in |
| `strings.dfy` | `Strings` | `char.IsWhiteSpace`, `IsNullOrEmpty`, `IsNullOrWhiteSpace`, `Trim`, ordinal `Replace` |
| `json.dfy` | `Json` | a parsed JSON document; `GetProperty`, the array indexer, `GetString` |
| `response_models.dfy` | `ResponseModels` | `SoapNotesResponse`, `PlanDetail` |
| `http.dfy` | `Http` | request, response, the mutable `HttpRequestMessage`, the 2xx test |
| `prompt.dfy` | `SoapPrompt` | the prompt template |
| `envelope.dfy` | `GeminiEnvelope` | the request body and the reply-text path |
| `sanitizer.dfy` | `ReplySanitizer` | fence removal and trimming |
| `concise_note.dfy` | `ConciseNote` | `Take` and the concise note |
| `soap_notes_service.dfy` | `Services` | the whole call: a specification function `Generate` and the class `SoapNotesService` whose method equals it |
| `soap_note_controller.dfy` | `SoapNoteController` | the blank-input gate |

Modelling decisions:

- A C# `null` is `None`. Strings are `Option<string>` (`NString`), and so are
  the plan lists and their items. The deserialised note can have `null` in all
  of these places.
- An exception is a `Result.Failure` that carries an `Error`. The method
  propagates it with `:-`.
- The network is a function `send: HttpRequest -> HttpResponse`. The JSON
  library is a pair of functions, `parse` and `deserialize`, and
  `deserialize` can say "malformed", "the literal null" or give a note.
- `HttpRequestMessage` is a class: the service adds a header to it and then
  sets its content. `SoapNotesService` is a class whose fields are set once,
  in its constructor.
- `Take` is a recursive function. `string.Replace` is an ordinal scan from
  left to right. It removes non-overlapping matches anywhere in the text.
- Other revisions of the service have a raw-text fallback note, a
  `RawResponse` field, HTML escaping, refusal handling and 3-item caps. This
  revision has none of them. Here a reply that does not deserialise makes the
  whole call fail, and the caps are 2/2/2/1/2. The model follows this code.
- A `null` list in the deserialised plan reaches `Enumerable.Take`. `Take`
  throws `ArgumentNullException("source")`, not `NullReferenceException`. A
  `null` note or a `null` plan is a `NullReferenceException`. A `null` reply
  text reaches `JsonSerializer.Deserialize`, which throws
  `ArgumentNullException("json")`.

## Model

| member | source | states |
|---|---|---|
| `Strings.Trim` | Services/SoapNotesService.cs:92 | the result starts and ends with no white space; it is a middle part of the input, and everything cut from either side is white space |
| `Strings.WhiteSpaceInBmp` | Services/SoapNotesService.cs:92 | every character `char.IsWhiteSpace` accepts is a single UTF-16 code unit and is not a backtick |
| `Strings.BlankIffTrimsToEmpty` | Controllers/SoapNoteController.cs:21 | a string is all white space exactly when trimming it leaves nothing |
| `Strings.IsNullOrWhiteSpace` | Controllers/SoapNoteController.cs:21 | `string.IsNullOrWhiteSpace` holds exactly for `null` and for a string that trims to empty |
| `Strings.NullOrEmptyIsBlank` | Services/SoapNotesService.cs:88 | a `null` or empty string is also null-or-white-space, while " " is blank without being empty, so the service's guard is the narrower one |
| `Strings.TrimIdempotent` | Services/SoapNotesService.cs:92 | trimming twice is trimming once |
| `Strings.ReplaceAll` | Services/SoapNotesService.cs:90-91 | replacing by a text no longer than the pattern never lengthens the text, and a text shorter than the pattern is returned as it is |
| `Strings.ReplaceAllAbsent` | Services/SoapNotesService.cs:90-91 | `Replace` leaves a text without any occurrence of the pattern unchanged |
| `Strings.ReplaceAllSkipsPrefix` | Services/SoapNotesService.cs:90-91 | a leading part where the pattern cannot start is copied unchanged, and replacing continues on the rest, however far into the text the first match is |
| `Strings.ReplaceAllShortTail` | Services/SoapNotesService.cs:90-91 | a tail shorter than the pattern that lacks the pattern's last character is copied unchanged after the replaced text |
| `Json.LastNamed` | Services/SoapNotesService.cs:81-85 | a property lookup fails exactly when no member has the name; otherwise it gives the value of the last member with that name |
| `Json.GetProperty` | Services/SoapNotesService.cs:81-85 | on a non-object it fails with an invalid operation; on an object it succeeds exactly when some member has the name, gives the value of the last such member, and otherwise fails with a missing-key error for that name |
| `Json.ElementAt` | Services/SoapNotesService.cs:82-84 | the indexer succeeds exactly on an array with enough items and gives item i; otherwise it fails with an index error for i, or with an invalid operation on a non-array |
| `Json.GetString` | Services/SoapNotesService.cs:85 | `GetString` succeeds exactly on a string or a JSON `null`; a string gives its text and `null` gives a `null` string |
| `GeminiEnvelope.RequestBodyCarriesPrompt` | Services/SoapNotesService.cs:52-64 | `contents[0].parts[0].text` of the body is the prompt, and the body has exactly one content with exactly one part |
| `GeminiEnvelope.ReplyTextFollowsPath` | Services/SoapNotesService.cs:81-85 | reading the reply text means walking `candidates`, `[0]`, `content`, `parts`, `[0]`, `text` and reading a string; it fails with the error of the first step that fails |
| `GeminiEnvelope.ReplyEnvelopeRoundTrip` | Services/SoapNotesService.cs:81-85 | the text read from a well-formed envelope is the text the envelope was built with |
| `GeminiEnvelope.MissingCandidates` | Services/SoapNotesService.cs:81-82 | an envelope object without `candidates` fails with a missing-key error |
| `GeminiEnvelope.EmptyCandidates` | Services/SoapNotesService.cs:82 | an empty `candidates` array fails with an index error |
| `GeminiEnvelope.ReplyTextSuccess` | Services/SoapNotesService.cs:81-85 | a successful read found a string, or a JSON `null`, at the end of the path and returns it |
| `GeminiEnvelope.RequestBody` | Services/SoapNotesService.cs:52-64 | the prompt lies at `contents[0].parts[0].text` of the body |
| `GeminiEnvelope.ReplyText` | Services/SoapNotesService.cs:81-85 | a successful read walked the whole reply-text path and returns what `GetString` reads at its end |
| `SoapPrompt.BuildPrompt` | Services/SoapNotesService.cs:22-50 | the prompt's length is the fixed prefix's, plus the narrative's, plus the fixed suffix's |
| `SoapPrompt.NarrativeOfPrompt` | Services/SoapNotesService.cs:22-50 | the narrative can be read back exactly from between the fixed prefix and suffix of its prompt |
| `SoapPrompt.PromptInjective` | Services/SoapNotesService.cs:22-50 | distinct narratives give distinct prompts |
| `SoapPrompt.NullNarrativePrompt` | Services/SoapNotesService.cs:34 | a `null` narrative gives the same prompt as an empty one |
| `ReplySanitizer.Sanitize` | Services/SoapNotesService.cs:87-93 | a `null` or empty reply passes unchanged; any other reply comes out with no fence in it and no white space at either end |
| `ReplySanitizer.Clean` | Services/SoapNotesService.cs:90-92 | the result of the Replace, Replace, Trim chain has no "```" in it and is trimmed |
| `ReplySanitizer.StripFencesLeavesNone` | Services/SoapNotesService.cs:91 | after every "```" is removed, none is left, including ones that removal might have joined together |
| `ReplySanitizer.StripFencesAbsorbsTrailing` | Services/SoapNotesService.cs:91 | a trailing "```" is removed without changing how the rest of the text is scanned |
| `ReplySanitizer.CleanOfClean` | Services/SoapNotesService.cs:90-92 | a trimmed text without a fence passes the chain unchanged |
| `ReplySanitizer.SanitizeIdempotent` | Services/SoapNotesService.cs:88-93 | sanitising a sanitised reply returns it |
| `ReplySanitizer.SanitizeUnwrapsFencedReply` | Services/SoapNotesService.cs:87-92 | "```json" + x + "```" sanitises to the same text as x |
| `ReplySanitizer.FirstPassDropsInnerJsonFence` | Services/SoapNotesService.cs:90 | the first pass removes a "```json" in mid-text as well as one at the start |
| `ReplySanitizer.SanitizeRemovesInnerJsonFence` | Services/SoapNotesService.cs:90-92 | a reply with a "```json" in mid-text, and no backtick before it, sanitises as if the fence were not there |
| `ConciseNote.Take` | Services/SoapNotesService.cs:109-113 | `Take(n)` keeps min(length, n) items, and they are the first items in their original order |
| `ConciseNote.TakeIdempotent` | Services/SoapNotesService.cs:109-113 | taking again with the same count changes nothing |
| `ConciseNote.BuildConcise` | Services/SoapNotesService.cs:101-115 | a `null` note or plan fails with a null reference, and a `null` list fails with a null `source`; otherwise the call succeeds. On success the four strings are copied unchanged, a plan is always present, and list k is the first `Caps[k]` items of the original list k, with caps 2/2/2/1/2 |
| `ConciseNote.ConcisePlanIsPrefix` | Services/SoapNotesService.cs:109-113 | each concise plan list holds min(L, cap) items, and they are the original list's first items in their original order |
| `ConciseNote.BuildConciseIdempotent` | Services/SoapNotesService.cs:101-115 | building the concise note from a concise note returns it unchanged |
| `ResponseModels.NewPlanDetail` | Models/ResponseVM/SoapNotesResponse.cs:12-19 | a new plan has its five lists, all of them empty |
| `ResponseModels.NewSoapNotesResponse` | Models/ResponseVM/SoapNotesResponse.cs:3-11 | in a new response all four strings and the plan are `null` |
| `ResponseModels.PlanDeterminedByLists` | Models/ResponseVM/SoapNotesResponse.cs:12-19 | a plan is exactly its five lists, taken in the order Investigations, Medications, LifestyleAdvice, Referrals, Monitoring |
| `Http.HttpRequestMessage.constructor` | Services/SoapNotesService.cs:66-67 | a new message has the POST verb and the endpoint, no headers and no content |
| `Http.HttpRequestMessage.AddHeader` | Services/SoapNotesService.cs:69 | the header is appended after the existing ones, and the content is untouched |
| `Http.HttpRequestMessage.SetContent` | Services/SoapNotesService.cs:71 | the content is set, and the headers are untouched |
| `Http.EnsureSuccessStatusCode` | Services/SoapNotesService.cs:75 | a response passes exactly when its status is 200-299 (`IsSuccessStatusCode`) and is then returned unchanged; otherwise the call fails with an `HttpRequestException` that carries the status |
| `Services.SoapNotesService.constructor` | Services/SoapNotesService.cs:14-18 | the client is kept, and the API key is the setting stored under exactly `Gemini:ApiKey`, or `null` when there is none (key case is not folded) |
| `Services.SoapNotesService.GenerateSoapNotes` | Services/SoapNotesService.cs:20-118 | the method, with its mutated request message and reassigned `text`, returns exactly the outcome of the specification `Generate` |
| `Services.Generate` | Services/SoapNotesService.cs:20-118 | a successful call returns a note whose plan and five lists are present and no longer than their caps, so it is never the `new SoapNotesResponse()` fallback |
| `Services.OutgoingRequest` | Services/SoapNotesService.cs:66-71 | the request is a POST to the fixed endpoint, with the one header `X-Goog-Api-Key` carrying the key, JSON content, and the prompt at `contents[0].parts[0].text` |
| `Services.Deserialize` | Services/SoapNotesService.cs:96-99 | a `null` text is rejected as a `null` argument `json`; otherwise a malformed text fails with a JSON error, the literal `null` gives a `null` note, and a note is returned as deserialised |
| `Services.NoteFromReply` | Services/SoapNotesService.cs:87-115 | a `null` reply text fails as a `null` argument `json`; a success is a note within the caps |
| `Services.OutgoingRequestCarriesNarrative` | Services/SoapNotesService.cs:52-71 | the request is a POST to the fixed endpoint with the single header `X-Goog-Api-Key`; its JSON body holds the prompt at `contents[0].parts[0].text`, and the narrative reads back from that prompt |
| `Services.NonSuccessStatusFails` | Services/SoapNotesService.cs:73-75 | a status outside 200-299 fails the call with that status, and no note is returned |
| `Services.EnvelopeFailureFails` | Services/SoapNotesService.cs:77-85 | a body that is not JSON, or an envelope without the reply-text path, fails the call with that step's error |
| `Services.MissingCandidatesFails` | Services/SoapNotesService.cs:81-82 | an answer without `candidates` fails the call with a missing-key error |
| `Services.NoteFromReplyOutcomes` | Services/SoapNotesService.cs:87-115 | a `null` text, undeserialisable text, a `null` note, a `null` plan and a `null` list each fail the call; otherwise the result is the concise form of the deserialised note |
| `Services.FencedReplyLikeBare` | Services/SoapNotesService.cs:87-106 | a reply fenced as "```json" ... "```" gives the same outcome as the same reply without fences |
| `Services.SuccessPath` | Services/SoapNotesService.cs:73-117 | a successful call had a 2xx status, a parsable envelope with a non-null text, and a deserialised note, and it returns exactly the concise form of that note |
| `SoapNoteController.Generate` | Controllers/SoapNoteController.cs:19-26 | the answer is BadRequest exactly when the narrative is null, empty or white space, and then its message is "Patient narrative cannot be empty."; otherwise it is Ok with the service's note unchanged, or the service's exception |
| `SoapNoteController.BlankNarrativeSkipsService` | Controllers/SoapNoteController.cs:21-24 | for a blank narrative, the answer does not depend on the service: the service is never called |
| `SoapNoteController.NarrativePassedVerbatim` | Controllers/SoapNoteController.cs:21-25 | a narrative with any non-white-space character goes to the service as received, without trimming; only the service's answer for that exact text decides the result |

## Left out

- Sending the request, `async`/`await`, `HttpClient` and reading the response body (Services/SoapNotesService.cs:66-77) are I/O. The upstream is the function `send`, and the body reaches the model already read as a string.
- `JsonDocument.Parse` and `JsonSerializer.Deserialize` are a foreign library and are parameters of the model. This covers the deserialiser's case-insensitive property matching and default values. `JsonSerializer.Serialize` of the request body is not modelled: the body stays a JSON value.
- `HttpHeaders.Add` validates header names and values. That check is not modelled; the header is recorded as data.
- `OutgoingRequest`: a `null` API key is recorded as a `None` header value, where .NET's `Headers.Add` stores an empty value; the two are not distinguished further.
- `SoapNotesService.constructor`: `IConfiguration` looks keys up case-insensitively; the model's configuration map is looked up by exact key.
- `send` is a total function, so the exceptions `SendAsync` and `ReadAsStringAsync` can throw (Services/SoapNotesService.cs:73,77) are not modelled: no network failure and no `TaskCanceledException` from an `HttpClient` timeout.
- Dafny strings are sequences of Unicode scalar values, while C# strings are UTF-16 code units. A lone surrogate (such as `\ud800` escaped in the reply JSON) cannot be represented, and `BuildPrompt`'s length counts scalar values, not `string.Length`. `Replace` and `Trim` are unaffected: the fence patterns are ASCII and every white-space character is a single code unit (`WhiteSpaceInBmp`).
- ASP.NET routing attributes, model binding and dependency injection (Controllers/SoapNoteController.cs:7-19) are not modelled. The action receives the narrative itself. `SymptomRequest` (Models/RequestsDTO) is not part of this model.
- Cancellation of the request and concurrent requests are left out: each call is stateless.
- `Strings.IsWhiteSpace`: lists the white-space characters of current Unicode by hand. It does not follow later changes to the Unicode database.
- Raw-text fallback, HTML escaping, refusal handling and `RawResponse` are absent from the code and are not modelled.
