/**
 * The relay endpoint (`/api/send-message`): ordered request validation, the
 * text forwarded to the Telegram bot, and the mapping of the bot API's answer
 * to the endpoint's response. The HTTP call itself is a parameter: the model
 * says which call the handler makes and takes what came back as an input.
 */
module Relay {
  import opened Wrappers
  import JsText

  /** The `message` field of the JSON body: a string, or anything else (absent, null, a number, an object). */
  datatype MessageField = Text(value: string) | NotText

  /** What the GET to the bot API produced: a parsed JSON answer, or a thrown network or parse error. */
  datatype Upstream<R> =
    | Answered(ok: bool, result: R, description: Option<string>)
    | Threw(message: string)

  /** The JSON body the endpoint answers with. */
  datatype Body<R> =
    | ErrorOnly(error: string)                  // { error }
    | Succeeded(result: R)                      // { success: true, result }
    | Failed(error: string)                     // { success: false, error }

  datatype Response<R> = Response(status: nat, body: Body<R>)

  /** The bot API call the handler makes: token, chat id and the text to send. */
  datatype TelegramCall = TelegramCall(botToken: string, chatId: string, text: string)

  /** One handled request: the single response, and the upstream call if one was made. */
  datatype Handled<R> = Handled(response: Response<R>, call: Option<TelegramCall>)

  const MethodNotAllowed := "Method Not Allowed"
  const InvalidMessage := "Invalid message"
  const NotConfigured := "Bot credentials not configured"
  const TelegramApiError := "Telegram API error"

  /** A message passes validation when it is a string, not empty, and not all whitespace. */
  predicate ValidMessage(message: MessageField)
  {
    message.Text? && message.value != "" && !JsText.IsBlank(message.value)
  }

  /** A credential from the environment counts only when it is set and not empty. */
  predicate Configured(credential: Option<string>)
  {
    credential.Some? && credential.value != ""
  }

  /** The text forwarded to the chat: the visitor's message and the IP the client reported, unchecked. */
  function ForwardedText(message: string, ip: string): (r: string)
    ensures |r| == |"User Message: "| + |message| + |"\nUser IP: "| + |ip|
    ensures r[..|"User Message: "|] == "User Message: "
    ensures r[|"User Message: "|..|"User Message: "| + |message|] == message
    ensures r[|"User Message: "| + |message|..|r| - |ip|] == "\nUser IP: "
    ensures r[|r| - |ip|..] == ip
  {
    "User Message: " + message + "\nUser IP: " + ip
  }

  /** The response made from the bot API's answer, once the call has been made. */
  function UpstreamResponse<R>(upstream: Upstream<R>): (r: Response<R>)
    ensures r.status == 200 <==> upstream.Answered? && upstream.ok
    ensures r.status == 200 ==> r.body == Succeeded(upstream.result)
    ensures r.status != 200 ==> r.status == 500 && r.body.Failed?
  {
    match upstream
    case Answered(ok, result, description) =>
      if ok then Response(200, Succeeded(result))
      else Response(500, Failed(if description.Some? && description.value != "" then description.value else TelegramApiError))
    case Threw(message) => Response(500, Failed(message))
  }

  /**
   * The handler. Guards run in the order method, message, credentials; each
   * rejection answers at once and makes no upstream call. Exactly one response
   * is produced for every request, and the bot API is called exactly when all
   * three guards pass.
   */
  function Handle<R>(httpMethod: string, message: MessageField, ip: string,
                     botToken: Option<string>, chatId: Option<string>,
                     upstream: Upstream<R>): (h: Handled<R>)
    ensures h.call.Some? <==> httpMethod == "POST" && ValidMessage(message) && Configured(botToken) && Configured(chatId)
    ensures h.call.Some? ==> h.call.value == TelegramCall(botToken.value, chatId.value, ForwardedText(message.value, ip))
    ensures h.response.status == 200 <==> h.call.Some? && upstream.Answered? && upstream.ok
    ensures h.response.status in {200, 400, 405, 500}
  {
    if httpMethod != "POST" then
      Handled(Response(405, ErrorOnly(MethodNotAllowed)), None)
    else if !ValidMessage(message) then
      Handled(Response(400, ErrorOnly(InvalidMessage)), None)
    else if !Configured(botToken) || !Configured(chatId) then
      Handled(Response(500, ErrorOnly(NotConfigured)), None)
    else
      Handled(UpstreamResponse(upstream), Some(TelegramCall(botToken.value, chatId.value, ForwardedText(message.value, ip))))
  }

  /** A message is rejected exactly when it is not a string or holds nothing but whitespace. */
  lemma ValidMessageIff(message: MessageField)
    ensures ValidMessage(message) <==>
      message.Text? && exists i :: 0 <= i < |message.value| && !JsText.IsJsWhitespace(message.value[i])
  {
    if message.Text? {
      JsText.TrimEmptyIff(message.value);
    }
  }

  /** Any method but POST: 405, before the body or the credentials are looked at, and no upstream call. */
  lemma NonPostRejected<R>(httpMethod: string, message: MessageField, ip: string,
                           botToken: Option<string>, chatId: Option<string>, upstream: Upstream<R>)
    requires httpMethod != "POST"
    ensures Handle(httpMethod, message, ip, botToken, chatId, upstream) == Handled(Response(405, ErrorOnly(MethodNotAllowed)), None)
  {
  }

  /** A POST with an invalid message: 400, whatever the credentials, and no upstream call. */
  lemma InvalidMessageRejected<R>(message: MessageField, ip: string,
                                  botToken: Option<string>, chatId: Option<string>, upstream: Upstream<R>)
    requires !ValidMessage(message)
    ensures Handle("POST", message, ip, botToken, chatId, upstream) == Handled(Response(400, ErrorOnly(InvalidMessage)), None)
  {
  }

  /** A valid POST with a missing or empty credential: 500 "not configured", and no upstream call. */
  lemma MissingCredentialsRejected<R>(message: MessageField, ip: string,
                                      botToken: Option<string>, chatId: Option<string>, upstream: Upstream<R>)
    requires ValidMessage(message)
    requires !Configured(botToken) || !Configured(chatId)
    ensures Handle("POST", message, ip, botToken, chatId, upstream) == Handled(Response(500, ErrorOnly(NotConfigured)), None)
  {
  }

  /** With every guard passed, the bot API's verdict decides the response. */
  lemma UpstreamDecides<R>(message: MessageField, ip: string,
                           botToken: Option<string>, chatId: Option<string>, upstream: Upstream<R>)
    requires ValidMessage(message) && Configured(botToken) && Configured(chatId)
    ensures var h := Handle("POST", message, ip, botToken, chatId, upstream);
      && (upstream.Answered? && upstream.ok ==> h.response == Response(200, Succeeded(upstream.result)))
      && (upstream.Answered? && !upstream.ok ==>
            h.response == Response(500, Failed(
              if upstream.description.Some? && upstream.description.value != "" then upstream.description.value
              else TelegramApiError)))
      && (upstream.Threw? ==> h.response == Response(500, Failed(upstream.message)))
  {
  }
}
