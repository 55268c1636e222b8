/** What the relay's HTTP routes share: the `text` of a request body, the `all` query flag
    and the shape of a POST response. */
module Api {
  import opened Support

  const TextRequired := "Text is required"

  /** The negation of `!text` in the POST handlers: a missing or null `text` and the empty
      string are refused. */
  predicate HasText(text: Option<string>)
    ensures HasText(text) <==> text != None && text != Some("")
  {
    text.Some? && text.value != ""
  }

  /** `searchParams.get('all') === 'true'`: only the exact string "true" asks for the full history. */
  predicate AllFlag(param: Option<string>)
    ensures param.None? ==> !AllFlag(param)
    ensures AllFlag(param) ==> param.Some? && param.value == "true"
    ensures param == Some("true") ==> AllFlag(param)
  {
    param == Some("true")
  }

  /** A POST response: `{success: true, message: note, messageId}` with status 200, or
      `{error}` with status 400. */
  datatype PostResponse = Accepted(note: string, messageId: nat) | BadRequest(error: string)

  function Status(r: PostResponse): (code: nat)
    ensures code == 200 <==> r.Accepted?
    ensures code == 400 <==> r.BadRequest?
  {
    if r.Accepted? then 200 else 400
  }
}
