# Sinch RCS client, modelled in Dafny

This project models the `Sinch` client class of the hackathon API, which
sends RCS (Rich Communication Services) messages through the Sinch
Conversation API. The client:

- derives a Basic Authentication token from its API key pair once, at
  construction (`_generate_access_token`);
- normalises the recipients of a send (a lone number becomes a one-element
  list; each entry is turned to text, stripped of surrounding whitespace
  and cleared of spaces);
- builds one POST per recipient to `{base_url}/projects/{project_id}/messages:send`,
  with a JSON content type, the `Basic` token and a payload carrying the
  application id, the recipient as its only RCS channel identity, and the
  message text;
- sends them in recipient order, stops at the first failing request and
  lets that error propagate, and otherwise returns the responses in order:
  the single response itself when there is exactly one, a list otherwise.

Modules:

- `Wrappers`, `Bytes`: `Option`, `Result`, and bytes as integers `0..255`.
- `Base64`: the encoder of section 4 of RFC 4648 (standard alphabet,
  `=` padding) and a canonical decoder that refuses non-zero pad bits
  (section 3.5 of RFC 4648). The two round trips are proved, and so are the
  length and padding of every encoding.
- `Utf8`: the UTF-8 encoder of RFC 3629 over Unicode scalar values, and a
  strict decoder, with their round trip proved.
- `PyText`: the Python text operations the client uses: `str.isspace`
  (the full set of 29 Unicode whitespace code points), `strip()`,
  `replace(' ', '')` and `str()` of a string, an integer or another object.
- `Conversation`: the request and response shapes, and the gateway as an
  object that logs every POST and answers it through an oracle. The
  oracle sees the whole history of requests.
- `SinchClient`: the token, normalisation, the declarative fan-out
  (`Fanout`: which requests a batch issues and what it returns), and the
  class `Sinch`. Its `SendRcs` method is proved to issue exactly the
  requests `Fanout` issues, in order, and to return what `Fanout` returns,
  shaped.

Three facts about the code shape the model:

- The client does not validate its configuration. An absent value is
  rendered as `None` inside the token and the URL, and becomes a JSON null
  `app_id`. No configuration error is ever raised.
- `delivery_report` is accepted and ignored. It reaches no request.
- A failing request propagates the HTTP library's exception. The client
  has no error type of its own.

## Model

| member | source | states |
|---|---|---|
| `SinchClient.Sinch.constructor` | api/src/api/clients/sinch.py:11-26 | the four configuration values are kept as given, the base URL is the fixed EU endpoint, and the token is derived from the key pair once, at construction (`Valid`) |
| `SinchClient.GenerateAccessToken` | api/src/api/clients/sinch.py:35-37 | the token (`Base64.Encode` of `Utf8.Encode` of `key:secret`) has `4 * ceil(n / 3)` characters for the `n` UTF-8 bytes of `key:secret` and uses only the base 64 alphabet and `=` |
| `SinchClient.TokenRoundTrip` | api/src/api/clients/sinch.py:35-37 | the token decodes, base 64 and then UTF-8, back to exactly `key:secret`, with an absent value rendered as `None` |
| `SinchClient.TokenLengthAscii` | api/src/api/clients/sinch.py:35-37 | for ASCII credentials the token has `4 * ceil(n / 3)` characters for the `n` characters of `key:secret` |
| `SinchClient.TokenDeterminesCredentials` | api/src/api/clients/sinch.py:35-37 | two key pairs give the same token exactly when they give the same `key:secret` text |
| `Base64.EncodeLength` | api/src/api/clients/sinch.py:36 | `Base64.Encode` gives four characters for every started group of three bytes |
| `Base64.DecodeEncode` | api/src/api/clients/sinch.py:36 | decoding the base 64 encoding of any bytes gives those bytes back |
| `Base64.EncodeDecode` | api/src/api/clients/sinch.py:36 | every string the canonical decoder accepts is the encoding of what it decodes to |
| `Base64.EncodeInjective` | api/src/api/clients/sinch.py:36 | distinct byte strings have distinct encodings |
| `Base64.EncodePadding` | api/src/api/clients/sinch.py:36 | no padding when the length is a multiple of three; otherwise `==` for one left-over byte and `=` for two, with every earlier character in the alphabet |
| `Base64.EncodeAlphabet` | api/src/api/clients/sinch.py:36 | every character of an encoding is in the base 64 alphabet or is `=` |
| `Base64.DecodeEncodeGroup` | api/src/api/clients/sinch.py:36 | a group of one to three bytes decodes from its four characters, padding allowed only in the last group |
| `Base64.EncodeDecodeGroup` | api/src/api/clients/sinch.py:36 | a four-character group the decoder accepts is the encoding of what it decodes to |
| `Utf8.DecodeEncode` | api/src/api/clients/sinch.py:35-36 | decoding `Utf8.Encode` of any text gives the text back |
| `Utf8.DecodeEncodeChar` | api/src/api/clients/sinch.py:36 | the strict decoder reads back each character's one-to-four-byte encoding, whatever follows it |
| `Utf8.EncodeAscii` | api/src/api/clients/sinch.py:36 | ASCII text encodes to one byte per character, the character's code |
| `PyText.SkipLeading` | api/src/api/clients/sinch.py:62 | where `strip()` starts: every character skipped is whitespace, and the one reached is not (or the text has ended) |
| `PyText.SkipTrailing` | api/src/api/clients/sinch.py:62 | where `strip()` ends: every character dropped is whitespace, and the one before the end is not (or the start was reached) |
| `PyText.Strip` | api/src/api/clients/sinch.py:62 | the result is a slice of the input with only whitespace outside it, and neither starts nor ends with whitespace |
| `PyText.StripKeepsNonSpace` | api/src/api/clients/sinch.py:62 | stripping keeps every occurrence of every non-whitespace character |
| `PyText.CoreKeepsNonSpace` | api/src/api/clients/sinch.py:62 | a slice with only whitespace around it holds every occurrence of every non-whitespace character of the text |
| `PyText.StripUnchanged` | api/src/api/clients/sinch.py:62 | text with no whitespace at either end is left as it is |
| `PyText.RemoveSpaces` | api/src/api/clients/sinch.py:62 | `replace(' ', '')` leaves no U+0020 and keeps every occurrence of every other character |
| `PyText.RemoveSpacesConcat` | api/src/api/clients/sinch.py:62 | removing spaces distributes over concatenation, so the order of what remains is kept |
| `PyText.RemoveSpacesKeepsEnds` | api/src/api/clients/sinch.py:62 | removing spaces from text that neither starts nor ends with one keeps its first and last characters |
| `PyText.RemoveSpacesUnchanged` | api/src/api/clients/sinch.py:62 | text without a space is left as it is |
| `PyText.Digits` | api/src/api/clients/sinch.py:55 | an integer is rendered as a non-empty run of decimal digits without a leading zero (`PyText.Decimal` adds the `-` of a negative one; `PyText.ToStr` renders a string as itself, an integer by `Decimal`, any other object by its text) |
| `PyText.DigitsValueDigits` | api/src/api/clients/sinch.py:55 | reading back the digits `str` gives a natural number yields the number |
| `SinchClient.Normalize` | api/src/api/clients/sinch.py:62 | a normalised recipient has no space, no whitespace at either end, and keeps every occurrence of every non-whitespace character of the original |
| `SinchClient.NormalizeKeepsText` | api/src/api/clients/sinch.py:62 | strip-then-remove-spaces keeps every occurrence of every non-whitespace character |
| `SinchClient.NormalizeKeepsEnds` | api/src/api/clients/sinch.py:62 | strip-then-remove-spaces neither starts nor ends with whitespace |
| `SinchClient.NormalizeIdempotent` | api/src/api/clients/sinch.py:62 | normalising a normalised recipient changes nothing |
| `SinchClient.NormalizeRecipients` | api/src/api/clients/sinch.py:58-64 | one recipient per entry of `to`, in the same order: the `k`-th is the `k`-th entry turned to text by `str` and normalised, so it has no space, no whitespace at either end, and keeps every occurrence of every non-whitespace character of that entry's text |
| `SinchClient.SingleNumberIsOneElementList` | api/src/api/clients/sinch.py:58 | a lone number is handled exactly as the one-element list holding it (`SinchClient.Entries` is the `[to] if isinstance(to, str) else to` step) |
| `SinchClient.NormalizeRecipientsSpec` | api/src/api/clients/sinch.py:58-64 | normalisation keeps the number and order of recipients: the `k`-th result is the `k`-th entry turned to text and normalised, so it has no space, no whitespace at either end, and keeps that entry's other text |
| `SinchClient.NormalizeRecipientsIdempotent` | api/src/api/clients/sinch.py:61-64 | normalising the normalised list again changes nothing |
| `SinchClient.RequestsSpec` | api/src/api/clients/sinch.py:73-101 | the `k`-th request goes to `base_url/projects/{project_id}/messages:send` with the JSON content type and `Basic` plus the construction-time token (which decodes to the key pair), and carries the application id, the `k`-th normalised recipient as its only `RCS` identity, and the message as text |
| `SinchClient.Sinch.RequestsFor` | api/src/api/clients/sinch.py:73-101 | one request per normalised recipient, in order: the `k`-th goes to the messages URL with the authentication headers and a payload naming the `k`-th recipient and the text (`Sinch.Requests` feeds it the normalised recipients and `str(message)`) |
| `SinchClient.DeliveryReportIgnored` | api/src/api/clients/sinch.py:82-99 | the requests do not depend on `delivery_report` |
| `SinchClient.Shape` | api/src/api/clients/sinch.py:110 | the reply holds exactly the responses, in order, and is a lone response exactly when there is one |
| `SinchClient.FirstFailure` | api/src/api/clients/sinch.py:81-102 | the index of the first failing request: every earlier one succeeds, and it fails unless it is the batch size |
| `SinchClient.FirstFailureAt` | api/src/api/clients/sinch.py:81-102 | an index before which all requests succeed and at which one fails (or the batch ends) is the first failure |
| `SinchClient.FanoutStopsAt` | api/src/api/clients/sinch.py:101-114 | when request `i` is the first to fail, the batch issues requests `0..i` and ends with that error |
| `SinchClient.FanoutCompletes` | api/src/api/clients/sinch.py:101-110 | when every request succeeds, the batch issues them all and returns their responses in order |
| `SinchClient.FanoutSuccess` | api/src/api/clients/sinch.py:101-110 | a batch (`SinchClient.Fanout`) succeeds exactly when every request succeeds, and then issued every request once and in order and holds one response per request, in order |
| `SinchClient.FanoutFailure` | api/src/api/clients/sinch.py:101-114 | a failed batch (`SinchClient.Fanout`) stopped at its first failing request: it issued that request and none after it, every earlier one succeeded, the error is that request's, and no response is returned |
| `SinchClient.NoRecipients` | api/src/api/clients/sinch.py:79-110 | with no recipients no request is issued and the reply is the empty list |
| `SinchClient.Dispatch` | api/src/api/clients/sinch.py:79-114 | the loop posts exactly the requests the fan-out issues, in order, and returns the responses or the first error |
| `SinchClient.Sinch.SendRcs` | api/src/api/clients/sinch.py:39-114 | the gateway receives exactly the requests the fan-out of this call's requests issues, and the caller gets the shaped responses or the first error |
| `Conversation.Gateway.Post` | api/src/api/clients/sinch.py:101 | one POST is appended to the gateway's log and answered according to the history so far |

## Left out

- Logging (every `logger` call): it has no effect on control flow or results. The `try`/`except` blocks of the constructor and of `send_rcs` only log and re-raise, so they are modelled as the error passing through.
- Reading the environment with `os.getenv`: the four values are constructor parameters, each possibly absent.
- The HTTP library (`requests.post`, `raise_for_status`, `response.json()`): the gateway is an oracle from the request history to a decoded JSON response or an error. HTTP status codes, transport failures and JSON decoding are all one opaque `GatewayError`, and JSON numbers are integers only.
- The wire form of the payload: the nested JSON body is a `Payload` record with the same three values, and `json=payload` serialisation is not modelled.
- The difference between a `RequestException`, which is logged and re-raised, and any other exception, which propagates without the log: both end the call with the same error.
- `SinchClient.Dispatch`: the requests are built before the loop, not inside it. Building them is pure, so the gateway sees the same sequence.
- `to` given as an iterable other than a string or a list (a tuple, a generator), or as a non-iterable (which raises `TypeError`), is not modelled. A list entry or a non-text message is modelled by what `str` renders: an integer by its decimal digits, any other object by its rendered text.
- Text that Python can hold but cannot encode as UTF-8 (lone surrogates, which raise `UnicodeEncodeError`): Dafny characters are Unicode scalar values, so such text cannot occur in the model.
- `PyText.ToStr`: `str` is modelled as never failing. Python refuses to render an integer of more than 4300 digits (`ValueError`, the default `sys.int_max_str_digits` limit), and `str` of an object whose `__str__` raises propagates that exception; in both cases `send_rcs` fails at line 55 or line 62 before any request is sent, whereas the model renders the value and sends.
