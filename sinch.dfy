/** The RCS client of the Sinch Conversation API: the Basic Authentication
    token derived from the key pair, recipient normalisation, one request
    per recipient, and the all-or-nothing aggregation of the answers. */
module SinchClient {

  import opened Wrappers
  import opened Bytes
  import Base64
  import Utf8
  import opened PyText
  import opened Conversation

  const BASE_URL: string := "https://eu.conversation.api.sinch.com/v1"
  const CONTENT_TYPE: string := "application/json"
  const RCS: string := "RCS"

  /** How an f-string renders a configuration value: the text itself, or
      "None" for a value that was never set. */
  function Interpolate(v: Option<string>): string {
    match v
    case Some(s) => s
    case None => "None"
  }

  /** The text the token encodes: `f"{api_key}:{api_secret}"`. */
  function Credentials(apiKey: Option<string>, apiSecret: Option<string>): string {
    Interpolate(apiKey) + ":" + Interpolate(apiSecret)
  }

  /** The Basic Authentication token: the base 64 encoding of the UTF-8
      bytes of the credentials. It has four characters per started group of
      three bytes and uses only the base 64 alphabet and `=`. */
  function GenerateAccessToken(apiKey: Option<string>, apiSecret: Option<string>): (token: string)
    ensures |token| == 4 * ((|Utf8.Encode(Credentials(apiKey, apiSecret))| + 2) / 3)
    ensures forall i :: 0 <= i < |token| ==> Base64.IsAlphabet(token[i]) || token[i] == Base64.PAD
  {
    EncodedShape(Credentials(apiKey, apiSecret));
    Base64.Encode(Utf8.Encode(Credentials(apiKey, apiSecret)))
  }

  // EncodedShape, EncodedRoundTrip, AsciiTokenLength, NormalizeKeepsText and
  // NormalizeKeepsEnds each carry the contract of the member that calls
  // them, stated over a plain text rather than over `Credentials(..)` or
  // `RemoveSpaces(Strip(..))`: keeping the proof away from those compound
  // terms keeps the solver's cost low.

  /** The length and the characters of the encoding of a text's bytes. */
  lemma EncodedShape(text: string)
    ensures var bytes := Utf8.Encode(text); var t := Base64.Encode(bytes);
      && |t| == 4 * ((|bytes| + 2) / 3)
      && forall i :: 0 <= i < |t| ==> Base64.IsAlphabet(t[i]) || t[i] == Base64.PAD
  {
    Base64.EncodeLength(Utf8.Encode(text));
    Base64.EncodeAlphabet(Utf8.Encode(text));
  }

  /** The token decodes, base 64 and then UTF-8, back to exactly the
      credentials it was made from. */
  lemma TokenRoundTrip(apiKey: Option<string>, apiSecret: Option<string>)
    ensures var token := GenerateAccessToken(apiKey, apiSecret);
      && Base64.Decode(token) == Some(Utf8.Encode(Credentials(apiKey, apiSecret)))
      && Utf8.Decode(Base64.Decode(token).value) == Some(Credentials(apiKey, apiSecret))
  {
    EncodedRoundTrip(Credentials(apiKey, apiSecret));
  }

  /** Decoding the encoding of a text's bytes gives the text back. */
  lemma EncodedRoundTrip(text: string)
    ensures var bytes := Utf8.Encode(text);
      && Base64.Decode(Base64.Encode(bytes)) == Some(bytes)
      && Utf8.Decode(bytes) == Some(text)
  {
    Base64.DecodeEncode(Utf8.Encode(text));
    Utf8.DecodeEncode(text);
  }

  /** For credentials in ASCII the byte length is the character length, so
      the token has `4 * ceil(n / 3)` characters for `n` characters. */
  lemma TokenLengthAscii(apiKey: Option<string>, apiSecret: Option<string>)
    requires Utf8.AllAscii(Credentials(apiKey, apiSecret))
    ensures |GenerateAccessToken(apiKey, apiSecret)| == 4 * ((|Credentials(apiKey, apiSecret)| + 2) / 3)
  {
    AsciiTokenLength(Credentials(apiKey, apiSecret));
  }

  lemma AsciiTokenLength(text: string)
    requires Utf8.AllAscii(text)
    ensures |Base64.Encode(Utf8.Encode(text))| == 4 * ((|text| + 2) / 3)
  {
    Base64.EncodeLength(Utf8.Encode(text));
    Utf8.EncodeAscii(text);
  }

  /** The token determines the credentials and nothing else: two key pairs
      give the same token exactly when they render to the same
      `key:secret` text. */
  lemma TokenDeterminesCredentials(k1: Option<string>, s1: Option<string>, k2: Option<string>, s2: Option<string>)
    ensures GenerateAccessToken(k1, s1) == GenerateAccessToken(k2, s2) <==> Credentials(k1, s1) == Credentials(k2, s2)
  {
    TokenRoundTrip(k1, s1);
    TokenRoundTrip(k2, s2);
  }

  /** Properties every cleaned-up form of the recipient text `s` has: no
      space anywhere, no whitespace at either end, and every character of
      `s` that is not whitespace kept, as often as it occurs. They do not
      fix the result: they say nothing of order, nor of whitespace other
      than U+0020 inside the text. `Normalize`'s exact result is fixed by
      `PyText.Strip` (the slice `IsCore` describes) together with
      `PyText.RemoveSpaces` and `PyText.RemoveSpacesConcat`. */
  predicate CleanedFrom(r: string, s: string) {
    && ' ' !in r
    && (r == [] || (!IsSpace(r[0]) && !IsSpace(r[|r| - 1])))
    && (forall c :: !IsSpace(c) ==> multiset(r)[c] == multiset(s)[c])
  }

  /** One recipient, as `str(num).strip().replace(' ', '')` leaves it: no
      space anywhere, no whitespace at either end, and every character that
      is not whitespace kept. */
  function Normalize(s: string): (r: string)
    ensures CleanedFrom(r, s)
  {
    NormalizeKeepsText(s);
    NormalizeKeepsEnds(s);
    RemoveSpaces(Strip(s))
  }

  lemma NormalizeKeepsText(s: string)
    ensures forall c :: !IsSpace(c) ==> multiset(RemoveSpaces(Strip(s)))[c] == multiset(s)[c]
  {
    forall c | !IsSpace(c)
      ensures multiset(RemoveSpaces(Strip(s)))[c] == multiset(s)[c]
    {
      StripKeepsNonSpace(s, c);
    }
  }

  lemma NormalizeKeepsEnds(s: string)
    ensures var r := RemoveSpaces(Strip(s)); r == [] || (!IsSpace(r[0]) && !IsSpace(r[|r| - 1]))
  {
    var t := Strip(s);
    if t != [] {
      RemoveSpacesKeepsEnds(t);
    }
  }

  /** Normalising a normalised recipient changes nothing. */
  lemma NormalizeIdempotent(s: string)
    ensures Normalize(Normalize(s)) == Normalize(s)
  {
    var r := Normalize(s);
    StripUnchanged(r);
    RemoveSpacesUnchanged(r);
  }

  /** The `to` argument: one phone number, or a list of them (each turned to
      text with `str`). */
  datatype Recipients = Number(number: string) | Numbers(numbers: seq<PyValue>)

  /** `[to] if isinstance(to, str) else to`. */
  function Entries(to: Recipients): seq<PyValue> {
    match to
    case Number(s) => [Str(s)]
    case Numbers(xs) => xs
  }

  /** The normalised recipients, one per entry and in the same order. */
  function NormalizeRecipients(to: Recipients): (r: seq<string>)
    ensures |r| == |Entries(to)|
    ensures forall k :: 0 <= k < |r| ==> r[k] == Normalize(ToStr(Entries(to)[k]))
    ensures forall k :: 0 <= k < |r| ==> CleanedFrom(r[k], ToStr(Entries(to)[k]))
  {
    var xs := Entries(to);
    seq(|xs|, k requires 0 <= k < |xs| => Normalize(ToStr(xs[k])))
  }

  /** A lone number is handled as the one-element list holding it. */
  lemma SingleNumberIsOneElementList(s: string)
    ensures NormalizeRecipients(Number(s)) == NormalizeRecipients(Numbers([Str(s)])) == [Normalize(s)]
  {
  }

  /** Normalisation keeps the number and order of the recipients: the
      `k`-th result is the `k`-th entry, turned to text and cleaned up. */
  lemma NormalizeRecipientsSpec(to: Recipients)
    ensures var r := NormalizeRecipients(to); var xs := Entries(to);
      && |r| == |xs|
      && forall k :: 0 <= k < |r| ==> r[k] == Normalize(ToStr(xs[k])) && CleanedFrom(r[k], ToStr(xs[k]))
  {
    var r := NormalizeRecipients(to);
    forall k | 0 <= k < |r|
      ensures CleanedFrom(r[k], ToStr(Entries(to)[k]))
    {
      var s := ToStr(Entries(to)[k]);
      assert r[k] == Normalize(s);
    }
  }

  /** Normalising the normalised recipients again changes nothing. */
  lemma NormalizeRecipientsIdempotent(to: Recipients)
    ensures var r := NormalizeRecipients(to);
      NormalizeRecipients(Numbers(seq(|r|, k requires 0 <= k < |r| => Str(r[k])))) == r
  {
    var r := NormalizeRecipients(to);
    var again := NormalizeRecipients(Numbers(seq(|r|, k requires 0 <= k < |r| => Str(r[k]))));
    forall k | 0 <= k < |r|
      ensures again[k] == r[k]
    {
      NormalizeIdempotent(ToStr(Entries(to)[k]));
    }
  }

  /** The answer the caller sees: one response unwrapped, any other number
      of them as a list. */
  datatype Reply = Single(response: Json) | List(responses: seq<Json>)

  /** The responses a reply holds, in order. */
  function Responses(r: Reply): seq<Json> {
    match r
    case Single(x) => [x]
    case List(xs) => xs
  }

  /** `responses[0] if len(responses) == 1 else responses`: nothing is lost,
      and the reply is unwrapped exactly when there is one response. */
  function Shape(responses: seq<Json>): (r: Reply)
    ensures Responses(r) == responses
    ensures r.Single? <==> |responses| == 1
  {
    if |responses| == 1 then Single(responses[0]) else List(responses)
  }

  /** The answer to the `k`-th request of a batch sent after `base`. */
  function Attempt(outcome: Oracle, base: seq<Request>, reqs: seq<Request>, k: int): Result<Json, GatewayError>
    requires 0 <= k < |reqs|
  {
    outcome(base + reqs[..k + 1])
  }

  /** The index of the first request at or after `from` that fails, or the
      batch size when none does. */
  function FirstFailure(outcome: Oracle, base: seq<Request>, reqs: seq<Request>, from: nat): (f: nat)
    requires from <= |reqs|
    ensures from <= f <= |reqs|
    ensures forall k :: from <= k < f ==> Attempt(outcome, base, reqs, k).Ok?
    ensures f < |reqs| ==> Attempt(outcome, base, reqs, f).Err?
    decreases |reqs| - from
  {
    if from == |reqs| || Attempt(outcome, base, reqs, from).Err? then from
    else FirstFailure(outcome, base, reqs, from + 1)
  }

  lemma {:induction false} FirstFailureAt(outcome: Oracle, base: seq<Request>, reqs: seq<Request>, from: nat, f: nat)
    requires from <= f <= |reqs|
    requires forall k :: from <= k < f ==> Attempt(outcome, base, reqs, k).Ok?
    requires f < |reqs| ==> Attempt(outcome, base, reqs, f).Err?
    ensures FirstFailure(outcome, base, reqs, from) == f
    decreases f - from
  {
    if from < f {
      FirstFailureAt(outcome, base, reqs, from + 1, f);
    }
  }

  /** The history after one more request of a batch. */
  lemma ExtendHistory(base: seq<Request>, reqs: seq<Request>, i: int)
    requires 0 <= i < |reqs|
    ensures base + reqs[..i] + [reqs[i]] == base + reqs[..i + 1]
  {
    assert reqs[..i + 1] == reqs[..i] + [reqs[i]];
  }

  /** What a batch did: the requests it issued, in order, and either every
      response or the error that ended it. */
  datatype Batch = Batch(issued: seq<Request>, result: Result<seq<Json>, GatewayError>)

  /** Sequential fan-out with the first failure aborting: the requests up to
      and including the first failing one are issued; the result is all the
      responses, in order, or that failure alone. */
  function Fanout(outcome: Oracle, base: seq<Request>, reqs: seq<Request>): Batch {
    var f := FirstFailure(outcome, base, reqs, 0);
    if f < |reqs| then
      Batch(reqs[..f + 1], Err(Attempt(outcome, base, reqs, f).error))
    else
      Batch(reqs, Ok(seq(|reqs|, k requires 0 <= k < |reqs| => Attempt(outcome, base, reqs, k).value)))
  }

  /** A batch whose requests before `i` all succeed and whose `i`-th fails
      issues the first `i + 1` requests and ends with that failure. */
  lemma FanoutStopsAt(outcome: Oracle, base: seq<Request>, reqs: seq<Request>, i: int, e: GatewayError)
    requires 0 <= i < |reqs|
    requires forall k :: 0 <= k < i ==> Attempt(outcome, base, reqs, k).Ok?
    requires Attempt(outcome, base, reqs, i) == Err(e)
    ensures Fanout(outcome, base, reqs) == Batch(reqs[..i + 1], Err(e))
  {
    FirstFailureAt(outcome, base, reqs, 0, i);
  }

  /** A batch whose every request succeeds issues them all and returns
      their responses, in order. */
  lemma FanoutCompletes(outcome: Oracle, base: seq<Request>, reqs: seq<Request>, responses: seq<Json>)
    requires |responses| == |reqs|
    requires forall k :: 0 <= k < |reqs| ==> Attempt(outcome, base, reqs, k) == Ok(responses[k])
    ensures Fanout(outcome, base, reqs) == Batch(reqs, Ok(responses))
  {
    FirstFailureAt(outcome, base, reqs, 0, |reqs|);
    assert Fanout(outcome, base, reqs).result.value == responses;
  }

  /** A batch succeeds exactly when every request succeeds; it then issued
      every request, once and in order, and holds one response per request,
      in the same order. */
  lemma FanoutSuccess(outcome: Oracle, base: seq<Request>, reqs: seq<Request>)
    ensures var b := Fanout(outcome, base, reqs);
      && (b.result.Ok? <==> forall k :: 0 <= k < |reqs| ==> Attempt(outcome, base, reqs, k).Ok?)
      && (b.result.Ok? ==>
            && b.issued == reqs
            && |b.result.value| == |reqs|
            && forall k :: 0 <= k < |reqs| ==> Ok(b.result.value[k]) == Attempt(outcome, base, reqs, k))
  {
  }

  /** A failed batch stopped at its first failing request `k`: it issued
      the requests up to `k` and none after, every earlier one succeeded, and
      the error is `k`'s. No response is returned. */
  lemma FanoutFailure(outcome: Oracle, base: seq<Request>, reqs: seq<Request>)
    ensures var b := Fanout(outcome, base, reqs); var k := |b.issued| - 1;
      b.result.Err? ==>
        && 0 <= k < |reqs|
        && b.issued == reqs[..k + 1]
        && (forall j :: 0 <= j < k ==> Attempt(outcome, base, reqs, j).Ok?)
        && Attempt(outcome, base, reqs, k) == Err(b.result.error)
  {
  }

  /** The client: its configuration, the fixed endpoint, and the token
      derived once at construction. */
  class Sinch {
    const apiKey: Option<string>
    const apiSecret: Option<string>
    const projectId: Option<string>
    const appId: Option<string>
    const baseUrl: string
    const accessToken: string

    /** What construction establishes and nothing changes afterwards. */
    predicate Valid() {
      baseUrl == BASE_URL && accessToken == GenerateAccessToken(apiKey, apiSecret)
    }

    /** Takes the four configuration values as given, without checking them
        for absence. */
    constructor (apiKey: Option<string>, apiSecret: Option<string>, projectId: Option<string>, appId: Option<string>)
      ensures this.apiKey == apiKey && this.apiSecret == apiSecret
      ensures this.projectId == projectId && this.appId == appId
      ensures Valid()
    {
      this.apiKey := apiKey;
      this.apiSecret := apiSecret;
      this.projectId := projectId;
      this.appId := appId;
      this.baseUrl := BASE_URL;
      this.accessToken := GenerateAccessToken(apiKey, apiSecret);
    }

    function Url(): string {
      baseUrl + "/projects/" + Interpolate(projectId) + "/messages:send"
    }

    function AuthHeaders(): Headers {
      Headers(CONTENT_TYPE, "Basic " + accessToken)
    }

    function PayloadFor(identity: string, text: string): Payload {
      Payload(appId, [ChannelIdentity(identity, RCS)], text)
    }

    /** The requests a call sends, one per normalised recipient, in order.
        `deliveryReport` is accepted and plays no part. */
    function Requests(to: Recipients, message: PyValue, deliveryReport: string): seq<Request> {
      RequestsFor(NormalizeRecipients(to), ToStr(message))
    }

    function RequestsFor(numbers: seq<string>, text: string): (reqs: seq<Request>)
      ensures |reqs| == |numbers|
      ensures forall k :: 0 <= k < |numbers| ==> reqs[k] == Request(Url(), AuthHeaders(), PayloadFor(numbers[k], text))
    {
      if numbers == [] then []
      else [Request(Url(), AuthHeaders(), PayloadFor(numbers[0], text))] + RequestsFor(numbers[1..], text)
    }

    /** `send_rcs`: sends the message to each recipient in turn and stops
        at the first failure. The gateway receives exactly the requests the
        fan-out issues, and the caller gets the shaped responses or the
        error. */
    method SendRcs(to: Recipients, message: PyValue, deliveryReport: string, gateway: Gateway)
      returns (r: Result<Reply, GatewayError>)
      modifies gateway
      ensures var b := Fanout(gateway.outcome, old(gateway.sent), Requests(to, message, deliveryReport));
        && gateway.sent == old(gateway.sent) + b.issued
        && r == (match b.result case Ok(rs) => Ok(Shape(rs)) case Err(e) => Err(e))
    {
      var reqs := Requests(to, message, deliveryReport);
      var res := Dispatch(reqs, gateway);
      match res
      case Ok(responses) => r := Ok(Shape(responses));
      case Err(e) => r := Err(e);
    }
  }

  /** The dispatch loop of `send_rcs`: posts the requests one at a time,
      collecting the responses, and returns the first error as soon as it
      occurs. */
  method Dispatch(reqs: seq<Request>, gateway: Gateway) returns (r: Result<seq<Json>, GatewayError>)
    modifies gateway
    ensures var b := Fanout(gateway.outcome, old(gateway.sent), reqs);
      gateway.sent == old(gateway.sent) + b.issued && r == b.result
  {
    ghost var base := gateway.sent;
    var responses: seq<Json> := [];
    var i := 0;
    assert reqs[..0] == [];
    while i < |reqs|
      invariant 0 <= i <= |reqs|
      invariant gateway.sent == base + reqs[..i]
      invariant |responses| == i
      invariant forall k :: 0 <= k < i ==> Attempt(gateway.outcome, base, reqs, k) == Ok(responses[k])
    {
      var res := gateway.Post(reqs[i]);
      ExtendHistory(base, reqs, i);
      if res.Err? {
        FanoutStopsAt(gateway.outcome, base, reqs, i, res.error);
        return Err(res.error);
      }
      ghost var before := responses;
      responses := responses + [res.value];
      forall k | 0 <= k <= i
        ensures Attempt(gateway.outcome, base, reqs, k) == Ok(responses[k])
      {
        if k < i {
          assert responses[k] == before[k];
        }
      }
      i := i + 1;
    }
    FanoutCompletes(gateway.outcome, base, reqs, responses);
    assert reqs[..|reqs|] == reqs;
    r := Ok(responses);
  }

  /** Every request of a call goes to the project's send endpoint with the
      JSON content type and the client's token, and carries the application
      id, the `k`-th normalised recipient as its only RCS identity, and the
      message as text; the token decodes back to the credentials. */
  lemma RequestsSpec(client: Sinch, to: Recipients, message: PyValue, deliveryReport: string, k: int)
    requires client.Valid()
    requires 0 <= k < |Entries(to)|
    ensures var reqs := client.Requests(to, message, deliveryReport);
      && |reqs| == |Entries(to)|
      && reqs[k].url == BASE_URL + "/projects/" + Interpolate(client.projectId) + "/messages:send"
      && reqs[k].headers == Headers("application/json", "Basic " + client.accessToken)
      && Base64.Decode(client.accessToken).Some?
      && Utf8.Decode(Base64.Decode(client.accessToken).value) == Some(Credentials(client.apiKey, client.apiSecret))
      && reqs[k].payload.appId == client.appId
      && reqs[k].payload.channelIdentities == [ChannelIdentity(NormalizeRecipients(to)[k], "RCS")]
      && reqs[k].payload.text == ToStr(message)
  {
    TokenRoundTrip(client.apiKey, client.apiSecret);
  }

  /** The delivery report setting has no effect on any request. */
  lemma DeliveryReportIgnored(client: Sinch, to: Recipients, message: PyValue, d1: string, d2: string)
    ensures client.Requests(to, message, d1) == client.Requests(to, message, d2)
  {
  }

  /** With no recipients nothing is sent and the reply is the empty list. */
  lemma NoRecipients(client: Sinch, to: Recipients, message: PyValue, deliveryReport: string, outcome: Oracle, base: seq<Request>)
    requires Entries(to) == []
    ensures var b := Fanout(outcome, base, client.Requests(to, message, deliveryReport));
      b.issued == [] && b.result == Ok([]) && Shape(b.result.value) == List([])
  {
    var reqs := client.Requests(to, message, deliveryReport);
    assert reqs == [];
    var b := Fanout(outcome, base, reqs);
    assert |b.result.value| == 0;
  }
}
