/** getfile: fetch one file through the content endpoint and decode it. The
    body is probed for an error message first; only when there is none is
    it read as a content envelope and its base64 payload decoded. The
    base64 decoder is a parameter (None for malformed input). */
module Content {
  import opened Wrappers

  /** What the content endpoint yields: no response, a body that is not
      JSON (both unmarshals fail, the message reads as empty), or a JSON
      object with its "message" and "content" fields (absent fields read as
      the empty string, as Go's json.Unmarshal leaves them). */
  datatype ContentResponse =
    | NoResponse
    | NotJson
    | Envelope(message: string, content: string)

  /** The URL getfile requests. */
  function ContentUrl(owner: string, repo: string, file: string): string
  {
    "https://api.github.com/repos/" + owner + "/" + repo + "/contents/" + file
  }

  /** The text of the file, or why there is none. A non-empty message is a
      terminal remote error whatever the content field holds, and the
      decoder is consulted only when there is no message. */
  function GetFile(resp: ContentResponse, decode: string -> Option<string>): (r: Result<string, Failure>)
    ensures resp.Envelope? && resp.message != "" ==> r == Err(Remote(resp.message))
    ensures r.Ok? <==> resp.Envelope? && resp.message == "" && decode(resp.content).Some?
    ensures r.Ok? ==> decode(resp.content) == Some(r.value)
    ensures r.Err? && r.error.Remote? ==> r.error.message != ""
    ensures resp.NoResponse? ==> r == Err(Transport)
    ensures resp.NotJson? ==> r == Err(Undecodable)
    ensures resp.Envelope? && resp.message == "" && decode(resp.content).None? ==> r == Err(BadBase64)
  {
    match resp
    case NoResponse => Err(Transport)
    case NotJson => Err(Undecodable)
    case Envelope(message, content) =>
      if message != "" then Err(Remote(message))
      else
        match decode(content)
        case None => Err(BadBase64)
        case Some(text) => Ok(text)
  }

  /** When the envelope carries an error message, the result does not
      depend on the decoder at all: the content is never decoded. */
  lemma ErrorFirst(message: string, content: string, d1: string -> Option<string>, d2: string -> Option<string>)
    requires message != ""
    ensures GetFile(Envelope(message, content), d1) == GetFile(Envelope(message, content), d2)
    ensures GetFile(Envelope(message, content), d1).Err?
  {
  }
}
