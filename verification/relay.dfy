/** The server-side relay that forwards a prompt to the language model: it checks the
    request method, then the prompt, then the presence of the API key, and only then
    asks the model; every path answers with exactly one status and JSON body. */
module Relay {
  import opened Wrappers
  import opened Text

  /** The `prompt` field of the request body: missing (or no body at all), a string,
      or some other JSON value. */
  datatype PromptField = Absent | Str(s: string) | NotString

  /** An incoming call: its HTTP method and the `prompt` field of its body. */
  datatype Request = Request(verb: string, prompt: PromptField)

  /** What the model call gave: a reply whose `text` may be missing, or an exception. */
  datatype ModelResult = Reply(text: Option<string>) | Threw

  /** The JSON body sent back: `{ error }` or `{ text }`. */
  datatype Body = ErrorBody(error: string) | TextBody(text: string)

  datatype Response = Response(status: int, body: Body)

  const MethodNotAllowed := "Method not allowed"
  const MissingPrompt := "Missing prompt"
  const MissingKey := "Missing GEMINI_API_KEY"
  const RequestFailed := "Gemini request failed"

  /** A prompt the relay accepts: a string with some non-white character. */
  predicate ValidPrompt(p: PromptField) {
    p.Str? && Trim(p.s) != []
  }

  /** An API key the relay accepts: set and non-empty. */
  predicate HasKey(key: Option<string>) {
    key.Some? && key.value != []
  }

  /** `handler`: 405 for any method but POST; then 400 for a missing, non-string or
      blank prompt; then 500 when the API key is unset or empty; then the model's
      trimmed text (or `""`) with 200, or a fixed error with 500 when the call throws.
      `key` is the environment variable and `model` what the model call would give. */
  function Handle(req: Request, key: Option<string>, model: ModelResult): (r: Response)
    ensures req.verb != "POST" ==> r == Response(405, ErrorBody(MethodNotAllowed))
    ensures req.verb == "POST" && !ValidPrompt(req.prompt) ==>
      r == Response(400, ErrorBody(MissingPrompt))
    ensures req.verb == "POST" && ValidPrompt(req.prompt) && !HasKey(key) ==>
      r == Response(500, ErrorBody(MissingKey))
    ensures r.status == 200 <==>
      req.verb == "POST" && ValidPrompt(req.prompt) && HasKey(key) && model.Reply?
    ensures r.status == 200 ==> r.body == TextBody(Trim(model.text.GetOr("")))
    ensures req.verb == "POST" && ValidPrompt(req.prompt) && HasKey(key) && model.Threw? ==>
      r == Response(500, ErrorBody(RequestFailed))
    ensures r.status in {200, 400, 405, 500}
  {
    if req.verb != "POST" then Response(405, ErrorBody(MethodNotAllowed))
    else if !ValidPrompt(req.prompt) then Response(400, ErrorBody(MissingPrompt))
    else if !HasKey(key) then Response(500, ErrorBody(MissingKey))
    else
      match model
      case Reply(t) => Response(200, TextBody(Trim(t.GetOr(""))))
      case Threw => Response(500, ErrorBody(RequestFailed))
  }

  /** The method is checked before anything else: a request that is not a POST gets
      the same answer whatever its prompt, the key and the model. */
  lemma MethodCheckedFirst(a: Request, b: Request, ka: Option<string>, kb: Option<string>,
                           ma: ModelResult, mb: ModelResult)
    requires a.verb != "POST" && b.verb != "POST"
    ensures Handle(a, ka, ma) == Handle(b, kb, mb)
  {
  }

  /** The prompt is checked before the key and the model: a POST with a bad prompt gets
      400 whether or not a key is configured and whatever the model would say. */
  lemma PromptCheckedBeforeKey(req: Request, ka: Option<string>, kb: Option<string>,
                               ma: ModelResult, mb: ModelResult)
    requires req.verb == "POST" && !ValidPrompt(req.prompt)
    ensures Handle(req, ka, ma) == Handle(req, kb, mb)
    ensures Handle(req, ka, ma).status == 400
  {
  }

  /** The text a successful answer carries is already trimmed. */
  lemma SuccessTextTrimmed(req: Request, key: Option<string>, model: ModelResult)
    requires Handle(req, key, model).status == 200
    ensures var t := Handle(req, key, model).body.text; Trim(t) == t
  {
    TrimIdempotent(model.text.GetOr(""));
  }
}
