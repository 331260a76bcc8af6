/** The Slack event-subscription endpoint: one POST request is checked
    against its signature, then answered as a URL-verification challenge,
    as an `app_mention` (generate a reply and post it into the thread) or
    acknowledged and ignored.

    The handler is a pure function of the signature verdict, the decoded
    JSON body and the text generator. What the Python code does to the
    outside world is returned as a trace of effects: the prompt handed to
    the generator and the `chat.postMessage` payload. */
module SlackEvents {
  import opened Wrappers
  import opened PyString
  import opened PyValue

  /** Body of the 403 response to a request whose signature is not valid. */
  const InvalidSignatureBody := "Invalid request signature"

  /** Text placed before the generator's error message in a degraded reply. */
  const ApologyPrefix := "Sorry, I encountered an error: "

  /** The `type` of the one event the bot answers. */
  const AppMention := "app_mention"

  /** The character that closes the bot's `<@BOTID>` mention token. */
  const MentionClose := '>'

  /** What the text generator returned for a prompt: the generated text,
      or the message of the exception it raised. */
  datatype GenResult = Generated(text: string) | GenFailed(message: string)

  /** The JSON payload sent to `chat.postMessage`. */
  datatype Payload = Payload(channel: Value, text: string, threadTs: Value)

  /** A call the handler makes to a collaborator. */
  datatype Effect =
    | Generate(prompt: string)  // the generator is asked for a reply to `prompt`
    | PostMessage(payload: Payload) // a message is posted to Slack

  /** The HTTP response. An exception the handler does not catch becomes
      Flask's 500 response. */
  datatype Response =
    | Forbidden(body: string)
    | ChallengeEcho(token: Value) // the JSON object `{"challenge": token}`
    | Ok                          // the text "OK"
    | ServerError(error: PyError)
  {
    function Status(): int {
      match this
      case Forbidden(_) => 403
      case ChallengeEcho(_) => 200
      case Ok => 200
      case ServerError(_) => 500
    }
  }

  /** The response together with the effects performed, in order. */
  datatype Outcome = Outcome(response: Response, effects: seq<Effect>)

  /** The thread to reply in: the event's `thread_ts` when present, otherwise
      its own `ts`, which starts a new thread under the mention. The `ts`
      lookup is the default argument of `get`, so Python evaluates it first
      and a missing `ts` raises `KeyError` even when `thread_ts` is present. */
  function ThreadOf(event: Value): (r: Result<Value, PyError>)
    ensures r.Success? <==> event.JObj? && "ts" in event.fields
    ensures r.Success? && "thread_ts" in event.fields ==> r.value == event.fields["thread_ts"]
    ensures r.Success? && "thread_ts" !in event.fields ==> r.value == event.fields["ts"]
    ensures r.Failure? ==> r.error == (if event.JObj? then KeyError("ts") else AttributeError("get"))
  {
    match event
    case JObj(fields) =>
      var ts :- Subscript(event, "ts");
      Success(Get(fields, "thread_ts", ts))
    case _ => Failure(AttributeError("get"))
  }

  /** The user's query: the text after the first `>` of the mention, with
      surrounding whitespace removed (`text.split(">", 1)[1].strip()`).
      Later `>` characters stay in the query, and a query that is only
      whitespace becomes the empty string. */
  function ExtractQuery(text: Value): (r: Result<string, PyError>)
    ensures r.Success? <==> text.JStr? && MentionClose in text.s
    ensures r.Success? ==> Trimmed(r.value)
    ensures text.JStr? && MentionClose !in text.s ==> r == Failure(IndexError)
    ensures !text.JStr? ==> r == Failure(AttributeError("split"))
  {
    match text
    case JStr(s) =>
      var parts := Split1(s, MentionClose);
      if |parts| > 1 then
        StripIdempotent(parts[1]);
        Success(Strip(parts[1]))
      else
        Failure(IndexError)
    case _ => Failure(AttributeError("split"))
  }

  /** The text posted back: the generated text unchanged, or, when the
      generator raised, the apology followed by the error's message. */
  function ReplyText(g: GenResult): (t: string)
    ensures g.Generated? ==> t == g.text
    ensures g.GenFailed? ==> |ApologyPrefix| <= |t| && t[..|ApologyPrefix|] == ApologyPrefix
                             && t[|ApologyPrefix|..] == g.message
  {
    match g
    case Generated(text) => text
    case GenFailed(message) => ApologyPrefix + message
  }

  /** An `app_mention` event: read `text`, `channel` and the thread, extract
      the query, ask the generator, and post the reply into the thread. Every
      step before the generator can raise; the generator's own failure is
      caught and turned into a reply. */
  function AnswerMention(event: Value, generate: string -> GenResult): (r: Result<seq<Effect>, PyError>)
    ensures r.Success? ==> |r.value| == 2 && r.value[0].Generate? && r.value[1].PostMessage?
    ensures r.Success? ==> event.JObj? && "text" in event.fields && "channel" in event.fields
                           && "ts" in event.fields
    ensures r.Success? ==> var p := r.value[1].payload;
                           && p.channel == event.fields["channel"]
                           && p.text == ReplyText(generate(r.value[0].prompt))
                           && ThreadOf(event) == Success(p.threadTs)
                           && ExtractQuery(event.fields["text"]) == Success(r.value[0].prompt)
  {
    var text :- Subscript(event, "text");
    var channel :- Subscript(event, "channel");
    var thread :- ThreadOf(event);
    var query :- ExtractQuery(text);
    Success([Generate(query), PostMessage(Payload(channel, ReplyText(generate(query)), thread))])
  }

  /** The handler after the signature has been accepted: a challenge is
      answered first, then an `app_mention` event is answered, and anything
      else is acknowledged. */
  function Dispatch(data: Value, generate: string -> GenResult): (r: Result<(Response, seq<Effect>), PyError>)
  {
    var hasChallenge :- Contains(data, "challenge");
    if hasChallenge then
      var token :- Subscript(data, "challenge");
      Success((ChallengeEcho(token), []))
    else
      // `in` raised on the line above for every value it raises on here
      var hasEvent := Contains(data, "event").value;
      if !hasEvent then
        Success((Ok, []))
      else
        var event :- Subscript(data, "event");
        var kind :- Subscript(event, "type");
        if kind != JStr(AppMention) then
          Success((Ok, []))
        else
          var effects :- AnswerMention(event, generate);
          Success((Ok, effects))
  }

  /** One POST to the endpoint. `signatureValid` is the verdict of Slack's
      signature verifier on the raw body and headers. */
  function Handle(signatureValid: bool, data: Value, generate: string -> GenResult): (o: Outcome)
    ensures o.response.Forbidden? <==> !signatureValid
    ensures o.response.Status() == 403 <==> !signatureValid
    ensures o.response.Status() == 500 <==> o.response.ServerError?
    ensures o.response.Status() in {200, 403, 500}
    ensures !signatureValid ==> o == Outcome(Forbidden(InvalidSignatureBody), [])
    ensures o.response.ChallengeEcho? ==> && data.JObj? && "challenge" in data.fields
                                          && o.response.token == data.fields["challenge"]
                                          && o.effects == []
    ensures o.response.ServerError? ==> o.effects == []
    ensures o.effects != [] ==> && o.response.Ok?
                                && |o.effects| == 2
                                && o.effects[0].Generate?
                                && o.effects[1].PostMessage?
  {
    if !signatureValid then
      Outcome(Forbidden(InvalidSignatureBody), [])
    else
      match Dispatch(data, generate)
      case Success((response, effects)) => Outcome(response, effects)
      case Failure(e) => Outcome(ServerError(e), [])
  }
}
