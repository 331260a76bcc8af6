# Slack mention bot: webhook handler model

A Dafny model of the request handler of a small Flask service. Slack sends
event notifications to its single POST endpoint. The handler does four things:

- It rejects a request whose Slack signature does not verify.
- It answers Slack's URL-verification `challenge`.
- For an `app_mention` event, it takes the user's query from the message
  text, asks a Vertex AI model for a reply, and posts that reply into the
  thread of the mention with `chat.postMessage`.
- It acknowledges every other event with `"OK", 200`.

The handler is modelled as the pure function `SlackEvents.Handle`. Its
inputs are the signature verifier's verdict (a `bool`), the decoded JSON
body (a `PyValue.Value`), and the text generator (a function from prompt to
`Generated(text)` or `GenFailed(message)`). It returns the HTTP response and
the trace of calls made to the outside world. That trace holds the prompt
given to the generator and the payload posted to Slack. An exception the
Python code does not catch becomes `ServerError` (Flask's 500) with an empty
trace.

The JSON body is modelled as a general JSON value, not only an object.
Python's `in` and `[...]` act differently on a dict, a list, a string and
`None`, and the handler applies them to whatever Flask decoded. These
operators are modelled in `PyValue`. The string methods the handler uses
(`strip()`, `split(">", 1)` and substring `in`) are modelled in `PyString`.
`strip()` uses Python's exact whitespace set.

Modules:

- `Wrappers`: `Option` and `Result`.
- `PyString`: `str.strip`, `str.split(sep, 1)`, substring `in`.
- `PyValue`: JSON values and Python's `in`, `[...]` and `dict.get` on them.
- `SlackEvents`: the handler.
- `SlackProperties`: lemmas relating a request to the handler's outcome.

## Behaviour as written

The handler is stricter than one might expect of a chat bot, and less
forgiving of odd bodies. The model follows the code:

- A mention text with no `>` makes `split(">", 1)[1]` raise `IndexError`.
  That line runs outside the `try`, so the request fails with 500 and
  nothing is posted. There is no apology reply.
- A query that is only whitespace becomes `""` and is still sent to the
  generator. It is not rejected.
- A body that is missing a key the handler reads fails with 500, not 200.
  The keys are `event.type`, `event.text`, `event.channel` and `event.ts`.
- A body that is JSON `null`, a number or a boolean fails with 500 at the
  first `in` test (`TypeError`).
- A list body that holds the string `"challenge"` or `"event"`, or a string
  body that contains either word, passes the `in` test and then fails with
  500 when it is subscripted (`TypeError`). Any other list or string body
  gets `"OK", 200`.
- `event["ts"]` is the default argument of `get`, so Python evaluates it
  first. An event without `ts` therefore fails even when it has `thread_ts`.
- A `thread_ts` whose value is JSON `null` is passed to the payload as is.

## Model

| member | source | states |
|---|---|---|
| `PyString.Strip` | main.py:50 | `strip()` leaves a piece of the text whose cut-off prefix and suffix are all whitespace and which itself neither starts nor ends with whitespace |
| `PyString.StripUnique` | main.py:50 | exactly one string is such a strip of a text, so any prefix/suffix trimming with those properties equals `strip()` |
| `PyString.StripIsStrip` | main.py:50 | a string is a strip of the text if and only if it is what `strip()` returns |
| `PyString.StripIdempotent` | main.py:50 | the stripped query has no surrounding whitespace and stripping it again changes nothing |
| `PyString.SkipSpace` | main.py:50 | where the stripped text starts: everything skipped is whitespace and the character found, if any, is not |
| `PyString.SkipSpaceBack` | main.py:50 | where the stripped text ends: everything skipped from the end is whitespace and the last character kept, if any, is not |
| `PyString.FindFirst` | main.py:50 | the index found holds the separator and no earlier index does; nothing is found exactly when the separator does not occur |
| `PyString.Split1` | main.py:50 | `split(">", 1)` gives one piece equal to the text when `>` is absent; otherwise it gives two pieces that rebuild the text around a `>`, and the first piece contains no `>` |
| `PyString.Split1AtFirst` | main.py:50 | splitting at the first `>` is the split Python returns, so later `>` characters stay in the second piece |
| `PyString.HasSubstring` | main.py:39 | `"challenge" in data` on a string body holds exactly when the key occurs somewhere in it |
| `PyValue.Contains` | main.py:39-43 | `in` checks the keys of a dict, the elements of a list and the substrings of a string, and raises `TypeError` on `None`, numbers and booleans |
| `PyValue.SubscriptIffContains` | main.py:39-45 | on a dict, `data[key]` succeeds exactly when `key in data` holds; on a list or string, `in` answers but `[key]` raises `TypeError` |
| `PyValue.GetIsSubscriptOrDefault` | main.py:46 | `d.get(key, default)` is `d[key]` when that succeeds, and the default when `d[key]` raises, which it does only with `KeyError(key)` |
| `PyValue.ContainsThenSubscript` | main.py:39-45 | after `key in data` holds, `data[key]` fails exactly when `data` is a list or a string, and then with `TypeError` |
| `SlackEvents.ThreadOf` | main.py:46 | the reply thread is `thread_ts` when present, else `ts`; a missing `ts` raises `KeyError` even when `thread_ts` is present |
| `SlackEvents.ExtractQuery` | main.py:50 | extraction succeeds exactly when the text is a string containing `>`, and the query has no surrounding whitespace; no `>` raises `IndexError` and a non-string text raises `AttributeError` |
| `SlackEvents.ReplyText` | main.py:53-56 | a generated reply is posted unchanged; a generator failure posts the apology prefix followed by the unchanged error message |
| `SlackEvents.AnswerMention` | main.py:44-59 | an answered mention makes exactly one generator call and then one post; the post's channel is `event.channel`, its thread is the chosen thread, its text is the reply to the extracted query |
| `SlackEvents.Handle` | main.py:25-61 | 403 with "Invalid request signature" and no effects exactly when the signature fails; a challenge echo carries `data["challenge"]` with no effects; a 500 has no effects; any effects are one generation followed by one post under "OK"; the status is always 200, 403 or 500 |
| `SlackProperties.ChallengeTakesPrecedence` | main.py:39-40 | a verified body with a `challenge` key gets that value back with 200 and no generation or post, even when it also has an `event` |
| `SlackProperties.ChallengeEchoIff` | main.py:28-40 | the challenge is echoed if and only if the signature is valid and the body is an object with a `challenge` key |
| `SlackProperties.MentionIsAnswered` | main.py:43-61 | a verified `app_mention` with `>` in its text generates for the stripped text after the first `>`, then posts exactly one message with `{channel, reply, chosen thread}`, and answers "OK" |
| `SlackProperties.PostOnlyForMention` | main.py:59-75 | anything is generated or posted only for a verified, non-challenge `app_mention`; the payload is exactly the event's channel, the reply to the extracted query and the chosen thread |
| `SlackProperties.MentionWithoutCloseFails` | main.py:50-53 | a mention text without `>` fails with `IndexError` (500) before the generator's `try`, with nothing generated or posted |
| `SlackProperties.OtherBodiesAreAcknowledged` | main.py:43-61 | a verified object body with no `challenge` and no `app_mention` event (no `event`, or another type) gets "OK", 200 with no effects |
| `SlackProperties.VerifiedEndsOk` | main.py:61 | every verified request that is neither a challenge nor stopped by an exception ends in "OK", 200, after either no effects or exactly one generation followed by one post of that generation's reply |
| `SlackProperties.BlankQueryIsEmpty` | main.py:50 | a remainder that is all whitespace yields the empty query |
| `SlackProperties.BlankQueryIsSent` | main.py:50-59 | a mention whose remainder after the first `>` is all whitespace is not rejected: the generator is asked for `""` and its reply is posted under "OK" |
| `SlackProperties.ExtractQueryAfterFirst` | main.py:50 | the query is the stripped text after the first `>`, whatever follows it |
| `SlackProperties.ExampleQuery` | main.py:50 | `"<@U1> what is 2+2?"` yields the query `"what is 2+2?"` |
| `SlackProperties.ExtractQueryIdempotent` | main.py:50 | re-extracting an extracted query behind another mention gives the same query |

## Left out

- Signature verification (main.py:22, 28-32): the HMAC and timestamp check belongs to the Slack SDK and is not part of this model. Its verdict is the `signatureValid` input. No tolerance window is modelled.
- Request parsing (main.py:36): the body is given already decoded. The model does not cover Flask's handling of a body that is not JSON, or of a wrong content type.
- JSON numbers are modelled as integers. The handler only carries them along and compares them.
- The Vertex AI call (main.py:20-21, 63-67): this is a network call. Its outcome is the `generate` input, and any exception it raises is `GenFailed` with that exception's message.
- The HTTP POST to `chat.postMessage` and its headers (main.py:76-80): this is I/O. Only the payload is modelled, as the `PostMessage` effect. An exception from `requests.post` is not modelled; it would turn the response into a 500 after the post was attempted.
- Environment configuration and `app.run` (main.py:11-17, 82-83): this is startup plumbing.
- The exact 500 page Flask renders, and the JSON encoding `jsonify` applies to the challenge echo: these are framework output. The model keeps only the status and the echoed value.
