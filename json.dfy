/** A parsed JSON document and the `JsonElement` accessors the service uses. */
module Json {
  import opened Wrappers
  import opened Errors
  import opened Strings

  datatype Json =
    | JNull
    | JBool(b: bool)
    | JNumber(literal: string)
    | JString(s: string)
    | JArray(items: seq<Json>)
      /** Members in document order; a name may occur more than once. */
    | JObject(members: seq<(string, Json)>)

  /** The value of the last member called `name`: for a name defined more
      than once, `GetProperty` matches the last definition. */
  function LastNamed(members: seq<(string, Json)>, name: string): (r: Option<Json>)
    ensures r.None? <==> forall i | 0 <= i < |members| :: members[i].0 != name
    ensures r.Some? ==> exists i | 0 <= i < |members| ::
      members[i] == (name, r.value) && forall j | i < j < |members| :: members[j].0 != name
    decreases |members|
  {
    if members == [] then None
    else if members[|members| - 1].0 == name then Some(members[|members| - 1].1)
    else LastNamed(members[..|members| - 1], name)
  }

  /** `JsonElement.GetProperty(name)`: ordinal, case-sensitive. */
  function GetProperty(e: Json, name: string): (r: Result<Json, Error>)
    ensures !e.JObject? ==> r == Failure(InvalidOperation)
    ensures e.JObject? && r.Failure? ==> r.error == KeyNotFound(name)
    ensures r.Success? <==> e.JObject? && exists i | 0 <= i < |e.members| :: e.members[i].0 == name
    ensures r.Success? ==> exists i | 0 <= i < |e.members| ::
      e.members[i] == (name, r.value) && forall j | i < j < |e.members| :: e.members[j].0 != name
  {
    if !e.JObject? then Failure(InvalidOperation)
    else match LastNamed(e.members, name)
      case None => Failure(KeyNotFound(name))
      case Some(v) => Success(v)
  }

  /** The indexer `JsonElement[i]`. */
  function ElementAt(e: Json, i: nat): (r: Result<Json, Error>)
    ensures r.Success? <==> e.JArray? && i < |e.items|
    ensures r.Success? ==> r.value == e.items[i]
    ensures r.Failure? ==> r.error == if e.JArray? then IndexOutOfRange(i) else InvalidOperation
  {
    if !e.JArray? then Failure(InvalidOperation)
    else if i < |e.items| then Success(e.items[i])
    else Failure(IndexOutOfRange(i))
  }

  /** `JsonElement.GetString()`: a JSON `null` reads as a `null` string. */
  function GetString(e: Json): (r: Result<NString, Error>)
    ensures r.Success? <==> e.JString? || e.JNull?
    ensures r == Success(None) <==> e == JNull
    ensures e.JString? ==> r == Success(Some(e.s))
  {
    match e
    case JString(s) => Success(Some(s))
    case JNull => Success(None)
    case _ => Failure(InvalidOperation)
  }

  /** One step along a path into a document. */
  datatype Step = Key(name: string) | Index(i: nat)

  /** Follows `path` step by step, failing at the first step that does not apply. */
  function Navigate(e: Json, path: seq<Step>): Result<Json, Error>
    decreases |path|
  {
    if path == [] then Success(e)
    else
      var next :- match path[0]
        case Key(name) => GetProperty(e, name)
        case Index(i) => ElementAt(e, i);
      Navigate(next, path[1..])
  }
}
