/** The messaging gateway's side of the conversation: what one send request
    carries on the wire, what comes back, and the gateway itself as an
    object that records every request it receives. */
module Conversation {

  import opened Wrappers

  /** A decoded JSON document; the client passes responses through without
      looking inside them. */
  datatype Json =
    | JNull
    | JBool(b: bool)
    | JNumber(n: int)
    | JString(s: string)
    | JArray(items: seq<Json>)
    | JObject(members: seq<(string, Json)>)

  /** One entry of `recipient.identified_by.channel_identities`. */
  datatype ChannelIdentity = ChannelIdentity(identity: string, channel: string)

  /** The JSON body of one send request: `app_id` (JSON null when the
      application id was never configured), the recipient's channel
      identities and `message.text_message.text`. */
  datatype Payload = Payload(appId: Option<string>, channelIdentities: seq<ChannelIdentity>, text: string)

  datatype Headers = Headers(contentType: string, authorization: string)

  /** One HTTP POST. */
  datatype Request = Request(url: string, headers: Headers, payload: Payload)

  /** A failed request: the transport failed, the gateway answered with a
      non-success status, or the body was not JSON. */
  datatype GatewayError = GatewayError(detail: string)

  /** How the gateway answers: the answer to the last request of a history
      of requests. Depending on the whole history, a repeated request may be
      answered differently from the first. */
  type Oracle = seq<Request> -> Result<Json, GatewayError>

  /** The gateway as the client sees it: each POST is recorded, in order,
      and answered by the oracle. */
  class Gateway {
    var sent: seq<Request>
    const outcome: Oracle

    constructor (outcome: Oracle)
      ensures sent == [] && this.outcome == outcome
    {
      sent := [];
      this.outcome := outcome;
    }

    /** Sends one request and waits for its answer. */
    method Post(req: Request) returns (res: Result<Json, GatewayError>)
      modifies this
      ensures sent == old(sent) + [req]
      ensures res == outcome(sent)
    {
      sent := sent + [req];
      res := outcome(sent);
    }
  }
}
