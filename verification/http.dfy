/**
  The request and response shapes the JSON handlers share: a method name
  and a parsed body in, a status envelope out.
 */
module Http {

  datatype Option<T> = None | Some(value: T)

  /** A parsed JSON object body, as far as the handlers read it: each key
      present with a text value. */
  type JsonObject = map<string, string>

  /** `data.get(key)`: the value, or None when the key is absent. */
  function Field(data: JsonObject, key: string): (v: Option<string>)
    ensures v.Some? <==> key in data
    ensures v.Some? ==> v.value == data[key]
  {
    if key in data then Some(data[key]) else None
  }

  /** An incoming request: its HTTP method and its parsed body. `body` is
      None when `json.loads` rejects the body or it is not a JSON object,
      which the handlers' `except` branch answers. */
  datatype Request = Request(verb: string, body: Option<JsonObject>)

  predicate IsPost(req: Request) {
    req.verb == "POST"
  }

  /** The JSON envelope: `{status: success, message}`, the chat endpoint's
      `{status: success, response}`, or `{status: error, message}`. */
  datatype Response =
    | Success(message: string)
    | Answer(response: string)
    | Error(message: string)

  const InvalidMethod: string := "Invalid request method"
}
