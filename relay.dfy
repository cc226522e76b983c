/**
 * Values shared by both webhook handlers of the relay: the optional value,
 * the HTTP response a handler sends, and the outbound calls it makes.
 */
module Relay {

  datatype Option<+T> = None | Some(value: T)

  /** The only design file whose events are relayed ("🌧️ ON°C"). */
  const ProjectFileName: string := "\U{1F327}\U{FE0F} ON°C"

  /** A response body: `res.send(text)` or `res.json({success?, message})`. */
  datatype Body = Plain(text: string) | Json(success: Option<bool>, message: string)

  datatype Response = Response(status: int, body: Body)

  /** An outbound call: a GET of a file's comment list, or a POST to the chat webhook. */
  datatype Effect = GetComments(fileKey: string) | PostWebhook(content: string)

  /**
   * What one request did: the response it sent (None when the handler threw
   * before answering) and the outbound calls it made, in order.
   */
  datatype Outcome = Outcome(response: Option<Response>, effects: seq<Effect>)

  /** True when some outbound call of the list is a webhook post. */
  predicate Posts(effects: seq<Effect>)
  {
    exists i :: 0 <= i < |effects| && effects[i].PostWebhook?
  }

  const UnknownFileName: Response := Response(400, Plain("Unknown file name"))
  const NotificationSent: Response := Response(200, Plain("Notification sent"))
  const SendFailed: Response := Response(500, Plain("Error sending notification"))
}
