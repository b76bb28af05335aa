/** The HTTP request and response as the service sees them. Sending is
    not modelled: the upstream is a function from request to response. */
module Http {
  import opened Wrappers
  import opened Errors
  import opened Strings
  import opened Json

  datatype HttpMethod = Post

  /** `StringContent`: a JSON body (its serialisation to text is not
      modelled) sent as UTF-8 with the given media type. */
  datatype StringContent = StringContent(body: Json, mediaType: string)

  /** What is on the wire once a request message is sent. */
  datatype HttpRequest = HttpRequest(
    verb: HttpMethod,
    requestUri: string,
    headers: seq<(string, NString)>,
    content: Option<StringContent>)

  /** A status code and the body text, already read. */
  datatype HttpResponse = HttpResponse(statusCode: int, body: string)

  /** `HttpResponseMessage.IsSuccessStatusCode`. */
  predicate IsSuccessStatusCode(statusCode: int) {
    200 <= statusCode <= 299
  }

  /** `HttpResponseMessage.EnsureSuccessStatusCode()`: the response itself
      for a 2xx status, an `HttpRequestException` with the status otherwise. */
  function EnsureSuccessStatusCode(response: HttpResponse): (r: Result<HttpResponse, Error>)
    ensures r.Success? <==> 200 <= response.statusCode <= 299
    ensures r.Success? ==> r.value == response
    ensures r.Failure? ==> r.error == HttpRequestError(response.statusCode)
  {
    if IsSuccessStatusCode(response.statusCode) then Success(response)
    else Failure(HttpRequestError(response.statusCode))
  }

  /** `HttpRequestMessage`, which the caller fills in before sending. */
  class HttpRequestMessage {
    const verb: HttpMethod
    const requestUri: string
    var headers: seq<(string, NString)>
    var content: Option<StringContent>

    constructor(verb: HttpMethod, requestUri: string)
      ensures this.verb == verb && this.requestUri == requestUri
      ensures headers == [] && content == None
    {
      this.verb := verb;
      this.requestUri := requestUri;
      headers := [];
      content := None;
    }

    /** `Headers.Add(name, value)`. */
    method AddHeader(name: string, value: NString)
      modifies this
      ensures headers == old(headers) + [(name, value)]
      ensures content == old(content)
    {
      headers := headers + [(name, value)];
    }

    /** The `Content` setter. */
    method SetContent(c: StringContent)
      modifies this
      ensures content == Some(c)
      ensures headers == old(headers)
    {
      content := Some(c);
    }

    function Snapshot(): HttpRequest
      reads this
    {
      HttpRequest(verb, requestUri, headers, content)
    }
  }
}
