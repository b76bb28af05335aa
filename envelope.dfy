/** The generateContent request body and the path to the reply text in the
    response envelope. */
module GeminiEnvelope {
  import opened Wrappers
  import opened Errors
  import opened Strings
  import opened Json

  /** `{ contents: [ { parts: [ { text: prompt } ] } ] }`. */
  function RequestBody(prompt: string): (body: Json)
    ensures Navigate(body, RequestTextPath) == Success(JString(prompt))
  {
    JObject([("contents", JArray([
      JObject([("parts", JArray([
        JObject([("text", JString(prompt))])]))])]))])
  }

  const RequestTextPath: seq<Step> :=
    [Key("contents"), Index(0), Key("parts"), Index(0), Key("text")]

  const ReplyTextPath: seq<Step> :=
    [Key("candidates"), Index(0), Key("content"), Key("parts"), Index(0), Key("text")]

  /** `candidates[0].content.parts[0].text`, read with `GetString`. */
  function ReplyText(root: Json): (r: Result<NString, Error>)
    ensures r.Success? ==>
      Navigate(root, ReplyTextPath).Success? && GetString(Navigate(root, ReplyTextPath).value) == r
  {
    var p := ReplyTextPath;
    assert p[1..] == [Index(0), Key("content"), Key("parts"), Index(0), Key("text")];
    assert p[2..] == [Key("content"), Key("parts"), Index(0), Key("text")];
    assert p[3..] == [Key("parts"), Index(0), Key("text")];
    assert p[4..] == [Index(0), Key("text")];
    assert p[5..] == [Key("text")];
    var candidates :- GetProperty(root, "candidates");
    var first :- ElementAt(candidates, 0);
    var content :- GetProperty(first, "content");
    var parts :- GetProperty(content, "parts");
    var part :- ElementAt(parts, 0);
    var text :- GetProperty(part, "text");
    GetString(text)
  }

  /** The envelope a well-behaved upstream answers with. */
  function ReplyEnvelope(text: string): Json {
    JObject([("candidates", JArray([
      JObject([("content", JObject([("parts", JArray([
        JObject([("text", JString(text))])]))]))])]))])
  }

  /** The request body carries the prompt as its one and only text part. */
  lemma RequestBodyCarriesPrompt(prompt: string)
    ensures Navigate(RequestBody(prompt), RequestTextPath) == Success(JString(prompt))
    ensures var contents := RequestBody(prompt).members;
      |contents| == 1 && contents[0].1.JArray? && |contents[0].1.items| == 1
    ensures var parts := RequestBody(prompt).members[0].1.items[0].members;
      |parts| == 1 && parts[0].1.JArray? && |parts[0].1.items| == 1
      && parts[0].1.items[0] == JObject([("text", JString(prompt))])
  {
  }

  /** Reading the reply text is walking `ReplyTextPath` and reading a string
      there; each step fails exactly where the walk does. */
  lemma ReplyTextFollowsPath(root: Json)
    ensures ReplyText(root) ==
      match Navigate(root, ReplyTextPath)
      case Failure(e) => Failure(e)
      case Success(text) => GetString(text)
  {
    var p := ReplyTextPath;
    assert p[1..] == [Index(0), Key("content"), Key("parts"), Index(0), Key("text")];
    assert p[2..] == [Key("content"), Key("parts"), Index(0), Key("text")];
    assert p[3..] == [Key("parts"), Index(0), Key("text")];
    assert p[4..] == [Index(0), Key("text")];
    assert p[5..] == [Key("text")];
  }

  /** The reply text of a well-formed envelope is its text. */
  lemma ReplyEnvelopeRoundTrip(text: string)
    ensures ReplyText(ReplyEnvelope(text)) == Success(Some(text))
  {
  }

  /** An envelope object without `candidates` is a missing-key failure. */
  lemma MissingCandidates(root: Json)
    requires root.JObject?
    requires forall i | 0 <= i < |root.members| :: root.members[i].0 != "candidates"
    ensures ReplyText(root) == Failure(KeyNotFound("candidates"))
  {
  }

  /** An empty `candidates` array is an index failure. */
  lemma EmptyCandidates(root: Json)
    requires GetProperty(root, "candidates") == Success(JArray([]))
    ensures ReplyText(root) == Failure(IndexOutOfRange(0))
  {
  }

  /** A successful read always found a string or a JSON `null` at the end of the path. */
  lemma ReplyTextSuccess(root: Json)
    requires ReplyText(root).Success?
    ensures Navigate(root, ReplyTextPath).Success?
    ensures var e := Navigate(root, ReplyTextPath).value;
      (e.JString? && ReplyText(root) == Success(Some(e.s)))
      || (e.JNull? && ReplyText(root) == Success(None))
  {
    ReplyTextFollowsPath(root);
  }
}
