/** Properties of the Slack endpoint that relate the handler's outcome to
    the request: the routing order, the query, the thread and the reply. */
module SlackProperties {
  import opened Wrappers
  import opened PyString
  import opened PyValue
  import opened SlackEvents

  /** The thread a reply belongs in, stated directly: `thread_ts` when the
      event has one, otherwise the event's own `ts`. */
  function ChosenThread(event: map<string, Value>): Value
    requires "ts" in event
  {
    if "thread_ts" in event then event["thread_ts"] else event["ts"]
  }

  /** A verified request whose body has a `challenge` key is answered with
      that value unchanged, whatever else the body holds (an `event` among
      it), and nothing is generated or posted. */
  lemma ChallengeTakesPrecedence(fields: map<string, Value>, generate: string -> GenResult)
    requires "challenge" in fields
    ensures var o := Handle(true, JObj(fields), generate);
            && o == Outcome(ChallengeEcho(fields["challenge"]), [])
            && o.response.Status() == 200
  {
  }

  /** The challenge is echoed exactly when the signature is valid and the
      body is an object with a `challenge` key. */
  lemma ChallengeEchoIff(signatureValid: bool, data: Value, generate: string -> GenResult)
    ensures Handle(signatureValid, data, generate).response.ChallengeEcho?
            <==> signatureValid && data.JObj? && "challenge" in data.fields
  {
  }

  /** An `app_mention` whose text has a `>`: the query is the stripped text
      after the first `>`; the generator is asked once for it; exactly one
      message is posted, into the event's channel and the chosen thread,
      carrying the generated text or the apology; the response is "OK", 200. */
  lemma MentionIsAnswered(fields: map<string, Value>, event: map<string, Value>,
                          before: string, after: string, generate: string -> GenResult)
    requires "challenge" !in fields && "event" in fields && fields["event"] == JObj(event)
    requires "type" in event && event["type"] == JStr(AppMention)
    requires "text" in event && event["text"] == JStr(before + [MentionClose] + after)
    requires MentionClose !in before
    requires "channel" in event && "ts" in event
    ensures var query := Strip(after);
            var reply := ReplyText(generate(query));
            Handle(true, JObj(fields), generate)
              == Outcome(Ok, [Generate(query), PostMessage(Payload(event["channel"], reply, ChosenThread(event)))])
  {
    ExtractQueryAfterFirst(before, after);
  }

  /** Conversely, something is generated and posted only for a verified
      `app_mention` event that is not a challenge, and then the post goes to
      the event's channel and chosen thread, the prompt is the extracted query
      and the text is the reply to that prompt. */
  lemma PostOnlyForMention(signatureValid: bool, data: Value, generate: string -> GenResult)
    ensures var effects := Handle(signatureValid, data, generate).effects;
            effects != [] ==>
              && signatureValid && data.JObj? && "challenge" !in data.fields && "event" in data.fields
              && var event := data.fields["event"];
                 && event.JObj? && "type" in event.fields && event.fields["type"] == JStr(AppMention)
                 && "text" in event.fields && "channel" in event.fields && "ts" in event.fields
                 && var query := effects[0].prompt;
                    && ExtractQuery(event.fields["text"]) == Success(query)
                    && effects[1].payload == Payload(event.fields["channel"], ReplyText(generate(query)),
                                                     ChosenThread(event.fields))
  {
  }

  /** A mention text with no `>` makes `split(">", 1)[1]` raise `IndexError`
      before the `try` around the generator is reached: the request fails
      with 500 and nothing is generated or posted. */
  lemma MentionWithoutCloseFails(fields: map<string, Value>, event: map<string, Value>,
                                 text: string, generate: string -> GenResult)
    requires "challenge" !in fields && "event" in fields && fields["event"] == JObj(event)
    requires "type" in event && event["type"] == JStr(AppMention)
    requires "text" in event && event["text"] == JStr(text) && MentionClose !in text
    requires "channel" in event && "ts" in event
    ensures var o := Handle(true, JObj(fields), generate);
            && o == Outcome(ServerError(IndexError), [])
            && o.response.Status() == 500
  {
  }

  /** A verified object body with neither a challenge nor an `app_mention`
      event (no `event` key, or an event of any other type) is acknowledged
      with "OK", 200, and nothing is generated or posted. */
  lemma OtherBodiesAreAcknowledged(fields: map<string, Value>, generate: string -> GenResult)
    requires "challenge" !in fields
    requires "event" in fields ==> && fields["event"].JObj?
                                   && "type" in fields["event"].fields
                                   && fields["event"].fields["type"] != JStr(AppMention)
    ensures Handle(true, JObj(fields), generate) == Outcome(Ok, [])
  {
  }

  /** Every verified request that is neither a challenge nor stopped by an
      exception ends with "OK", 200, having done either nothing or exactly
      one generation followed by one post of that generation's reply. */
  lemma VerifiedEndsOk(data: Value, generate: string -> GenResult)
    ensures var o := Handle(true, data, generate);
            !o.response.ChallengeEcho? && !o.response.ServerError? ==>
              && o.response == Ok && o.response.Status() == 200
              && (|| o.effects == []
                  || (&& |o.effects| == 2
                      && o.effects[0].Generate? && o.effects[1].PostMessage?
                      && o.effects[1].payload.text == ReplyText(generate(o.effects[0].prompt))))
  {
  }

  /** A query that is only whitespace is the empty string. */
  lemma BlankQueryIsEmpty(after: string)
    requires AllSpace(after)
    ensures Strip(after) == []
  {
    assert StripsAt(after, 0, 0, []);
    StripUnique(after, []);
  }

  /** A mention whose text after the first `>` is only whitespace is not
      rejected: the empty query is handed to the generator and its reply is
      posted. */
  lemma BlankQueryIsSent(fields: map<string, Value>, event: map<string, Value>,
                         before: string, after: string, generate: string -> GenResult)
    requires "challenge" !in fields && "event" in fields && fields["event"] == JObj(event)
    requires "type" in event && event["type"] == JStr(AppMention)
    requires "text" in event && event["text"] == JStr(before + [MentionClose] + after)
    requires MentionClose !in before && AllSpace(after)
    requires "channel" in event && "ts" in event
    ensures var o := Handle(true, JObj(fields), generate);
            && o.response == Ok
            && |o.effects| == 2
            && o.effects[0] == Generate("")
            && o.effects[1].payload.text == ReplyText(generate(""))
  {
    MentionIsAnswered(fields, event, before, after, generate);
    BlankQueryIsEmpty(after);
  }

  /** The query is the stripped text after the first `>`: whatever comes
      after it, later `>` characters included, is kept. */
  lemma ExtractQueryAfterFirst(before: string, after: string)
    requires MentionClose !in before
    ensures ExtractQuery(JStr(before + [MentionClose] + after)) == Success(Strip(after))
  {
    Split1AtFirst(before, MentionClose, after);
  }

  /** Stripping removes the single leading space of `" what is 2+2?"`. */
  lemma ExampleStrip()
    ensures Strip(" what is 2+2?") == "what is 2+2?"
  {
    var s, q := " what is 2+2?", "what is 2+2?";
    assert s[..1] == " " && s[1..] == q && s[|s|..] == [];
    assert !IsSpace(q[0]) && !IsSpace(q[|q| - 1]);
    assert StripsAt(s, 1, |s|, q);
    StripUnique(s, q);
  }

  /** The mention in `"<@U1> what is 2+2?"` is cut off at its `>` and the
      space after it is stripped. */
  lemma ExampleQuery()
    ensures ExtractQuery(JStr("<@U1> what is 2+2?")) == Success("what is 2+2?")
  {
    var before, after := "<@U1", " what is 2+2?";
    assert "<@U1> what is 2+2?" == before + [MentionClose] + after;
    assert MentionClose !in before;
    ExtractQueryAfterFirst(before, after);
    ExampleStrip();
  }

  /** A query extracted from a mention is extracted unchanged from a text
      that mentions again: stripping is idempotent. */
  lemma ExtractQueryIdempotent(text: Value, mention: string)
    requires ExtractQuery(text).Success?
    requires MentionClose !in mention
    ensures ExtractQuery(JStr(mention + [MentionClose] + ExtractQuery(text).value)) == ExtractQuery(text)
  {
    var q := ExtractQuery(text).value;
    ExtractQueryAfterFirst(mention, q);
    StripOfTrimmed(q);
  }
}
