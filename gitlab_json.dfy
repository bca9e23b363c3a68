/**
 * The JSON "lifting" helper `GitLabClient.__lift`, written identically in
 * python/gitlab-mr-checker.py and python/gitlab-jenkins-webhook.py: a
 * response body that decodes to a JSON list is returned as it is, any other
 * JSON value becomes a one-element list, and a decoding error is re-raised.
 */
module GitLabJson {
  import opened Wrappers

  /** A decoded JSON document. */
  datatype Json =
    | JNull
    | JBool(b: bool)
    | JNumber(n: int)
    | JString(s: string)
    | JArray(items: seq<Json>)
    | JObject(fields: map<string, Json>)

  /** `json.decoder.JSONDecodeError`. */
  datatype DecodeError = JsonDecodeError

  /**
   * `__lift(response_content)`, given what `json.loads` made of the body.
   * The error is shown and raised again; the model carries it through.
   */
  function Lift(decoded: Result<Json, DecodeError>): (r: Result<seq<Json>, DecodeError>)
    ensures decoded.Failure? <==> r.Failure?
    ensures r.Failure? ==> r.error == decoded.error
    ensures decoded.Success? ==> JArray(r.value) == (if decoded.value.JArray? then decoded.value else JArray([decoded.value]))
  {
    match decoded
    case Failure(e) => Failure(e)
    case Success(data) =>
      if data.JArray? then Success(data.items) else Success([data])
  }

  /** Lifting is idempotent: a lifted list, lifted again as a JSON list, is unchanged. */
  lemma LiftIdempotent(decoded: Result<Json, DecodeError>)
    requires Lift(decoded).Success?
    ensures Lift(Success(JArray(Lift(decoded).value))) == Lift(decoded)
  {
  }

  /** Only an empty JSON list lifts to no items. */
  lemma LiftEmptyIff(decoded: Result<Json, DecodeError>)
    requires decoded.Success?
    ensures Lift(decoded).value == [] <==> decoded.value == JArray([])
  {
  }
}
