/**
 * The chat page's state and its send step: an append-only message log and the
 * text field, updated one send at a time. The IP lookup and the call to the
 * relay endpoint are inputs: what the lookup produced and whether the call
 * returned or threw.
 */
module Chat {
  import opened Wrappers
  import JsText
  import Canned
  import Relay

  datatype Sender = User | Bot

  /** `{ text, sender }`, as appended to the log. */
  datatype ChatMessage = ChatMessage(text: string, sender: Sender)

  /** The outcome of the IP lookup: the address it reported, or a failure of the request or its JSON. */
  datatype IpLookup = IpFound(ip: string) | IpFailed

  /** The outcome of the POST to the relay: it returned a JSON response with some status, or it threw. */
  datatype RelayCall = RelayReturned(status: nat) | RelayThrew

  /** The JSON body the page posts to the relay endpoint. */
  datatype Notification = Notification(message: string, ip: string)

  const IpPlaceholder := "IP_FETCH_FAILED"
  const Apology := "দুঃখিত, সার্ভার সমস্যা হচ্ছে। আবার চেষ্টা করুন।"

  /** A log made of whole sends: each a non-blank user message followed by one bot message. */
  predicate Exchanges(log: seq<ChatMessage>)
    decreases |log|
  {
    log == [] ||
    (|log| >= 2 && log[0].sender == User && !JsText.IsBlank(log[0].text) &&
     log[1].sender == Bot && Exchanges(log[2..]))
  }

  /** The texts the visitor sent, in order. */
  function UserTexts(log: seq<ChatMessage>): seq<string>
  {
    if log == [] then []
    else (if log[0].sender == User then [log[0].text] else []) + UserTexts(log[1..])
  }

  /** Appending one whole send keeps the log made of whole sends. */
  lemma {:induction false} ExchangesAppend(log: seq<ChatMessage>, user: ChatMessage, bot: ChatMessage)
    requires Exchanges(log)
    requires user.sender == User && !JsText.IsBlank(user.text) && bot.sender == Bot
    ensures Exchanges(log + [user, bot])
    decreases |log|
  {
    var longer := log + [user, bot];
    if log == [] {
      assert longer == [user, bot] && longer[2..] == [];
    } else {
      assert |log| >= 2 && longer[0] == log[0] && longer[1] == log[1];
      assert longer[2..] == log[2..] + [user, bot];
      ExchangesAppend(log[2..], user, bot);
    }
  }

  /** The visitor's texts of a longer log are those of its parts, in order. */
  lemma {:induction false} UserTextsAppend(a: seq<ChatMessage>, b: seq<ChatMessage>)
    ensures UserTexts(a + b) == UserTexts(a) + UserTexts(b)
    decreases |a|
  {
    if a == [] {
      assert a + b == b;
    } else {
      assert (a + b)[1..] == a[1..] + b;
      UserTextsAppend(a[1..], b);
    }
  }

  /** The whole exchange the client sees: the bot message never reads the relay's status. */
  lemma ReplyIgnoresStatus(answers: seq<(string, string)>, message: string, s1: nat, s2: nat)
    ensures BotText(answers, message, RelayReturned(s1)) == BotText(answers, message, RelayReturned(s2)) == Canned.ReplyTo(answers, message)
    ensures BotText(answers, message, RelayThrew) == Apology
  {
  }

  /** The text of the bot message that follows a send of `message`, with the answer table `answers`. */
  function BotText(answers: seq<(string, string)>, message: string, relay: RelayCall): string
  {
    match relay
    case RelayReturned(_) => Canned.ReplyTo(answers, message)
    case RelayThrew => Apology
  }

  /**
   * The relay never rejects what the page posts: the page posts only
   * non-blank text, by the same `trim`, and always with POST; so the answer is
   * 200 or a 500 from configuration or the bot API, never 400 or 405.
   */
  lemma PostedMessagesPassValidation<R>(message: string, ip: string,
                                        botToken: Option<string>, chatId: Option<string>,
                                        upstream: Relay.Upstream<R>)
    requires !JsText.IsBlank(message)
    ensures Relay.Handle("POST", Relay.Text(message), ip, botToken, chatId, upstream).response.status in {200, 500}
  {
    JsText.TrimEmptyIff(message);
  }

  /**
   * The bot-message part of `sendMessage`: after a returned relay call, the
   * input is cleaned, its spelling corrected and the first matching canned
   * entry chosen; after a thrown one, the apology.
   */
  method ReplyFor(answers: seq<(string, string)>, message: string, relay: RelayCall) returns (text: string)
    ensures text == BotText(answers, message, relay)
  {
    match relay {
      case RelayReturned(_) =>
        var cleaned := Canned.Clean(message);
        var corrected := Canned.CorrectSpelling(cleaned);
        text := Canned.ChooseReply(answers, corrected);
      case RelayThrew =>
        text := Apology;
    }
  }

  /** The visitor's texts of one whole send: just the one they typed. */
  lemma UserTextsOfSend(userText: string, botText: string)
    ensures UserTexts([ChatMessage(userText, User), ChatMessage(botText, Bot)]) == [userText]
  {
    var exchange := [ChatMessage(userText, User), ChatMessage(botText, Bot)];
    assert exchange[1..][1..] == [];
    assert UserTexts(exchange[1..]) == [];
  }

  /** One send appends one whole exchange and one visitor text. */
  lemma SendStep(log: seq<ChatMessage>, userText: string, botText: string)
    requires Exchanges(log) && !JsText.IsBlank(userText)
    ensures Exchanges(log + [ChatMessage(userText, User), ChatMessage(botText, Bot)])
    ensures UserTexts(log + [ChatMessage(userText, User), ChatMessage(botText, Bot)]) == UserTexts(log) + [userText]
  {
    ExchangesAppend(log, ChatMessage(userText, User), ChatMessage(botText, Bot));
    UserTextsAppend(log, [ChatMessage(userText, User), ChatMessage(botText, Bot)]);
    UserTextsOfSend(userText, botText);
  }

  class ChatClient {
    /** `predefinedAnswers`, fixed when the page is created. */
    const answers: seq<(string, string)>
    var messages: seq<ChatMessage>
    var input: string

    ghost predicate Valid()
      reads this
    {
      Exchanges(messages)
    }

    constructor ()
      ensures Valid() && messages == [] && input == "" && answers == Canned.Table
    {
      answers := Canned.Table;
      messages := [];
      input := "";
    }

    /** The text field's change handler. */
    method SetInput(text: string)
      modifies this`input
      ensures input == text
    {
      input := text;
    }

    /** `appendMessage`: adds one message at the end and changes nothing before it. */
    method AppendMessage(text: string, sender: Sender)
      modifies this`messages
      ensures messages == old(messages) + [ChatMessage(text, sender)]
    {
      messages := messages + [ChatMessage(text, sender)];
    }

    /**
     * `sendMessage`, run to completion. A blank input changes nothing and
     * posts nothing. Otherwise the raw input is logged as the user's message,
     * the field is cleared, the input is posted with the looked-up IP or the
     * placeholder, and exactly one bot message follows: the canned reply if
     * the relay call returned, whatever it returned, the apology if it threw.
     */
    method SendMessage(lookup: IpLookup, relay: RelayCall) returns (posted: Option<Notification>)
      requires Valid()
      modifies this
      ensures Valid()
      ensures JsText.IsBlank(old(input)) ==> messages == old(messages) && input == old(input) && posted == None
      ensures !JsText.IsBlank(old(input)) ==>
        && input == ""
        && posted == Some(Notification(old(input), if lookup.IpFound? then lookup.ip else IpPlaceholder))
        && messages == old(messages) + [ChatMessage(old(input), User), ChatMessage(BotText(answers, old(input), relay), Bot)]
      ensures UserTexts(messages) == UserTexts(old(messages)) + if JsText.IsBlank(old(input)) then [] else [old(input)]
    {
      if JsText.IsBlank(input) {
        assert UserTexts(messages) == UserTexts(messages) + [];
        return None;
      }
      var notification := Send(lookup, relay);
      posted := Some(notification);
    }

    /** The part of `sendMessage` after the blank check: log, clear, post, reply. */
    method Send(lookup: IpLookup, relay: RelayCall) returns (posted: Notification)
      requires Valid() && !JsText.IsBlank(input)
      modifies this
      ensures Valid()
      ensures input == ""
      ensures posted == Notification(old(input), if lookup.IpFound? then lookup.ip else IpPlaceholder)
      ensures messages == old(messages) + [ChatMessage(old(input), User), ChatMessage(BotText(answers, old(input), relay), Bot)]
      ensures UserTexts(messages) == UserTexts(old(messages)) + [old(input)]
    {
      ghost var log := messages;
      AppendMessage(input, User);
      var userMessage := input;
      SetInput("");

      var userIp := IpPlaceholder;
      if lookup.IpFound? {
        userIp := lookup.ip;
      }
      posted := Notification(userMessage, userIp);

      var botText := ReplyFor(answers, userMessage, relay);
      AppendMessage(botText, Bot);
      assert messages == log + [ChatMessage(userMessage, User), ChatMessage(botText, Bot)];
      SendStep(log, userMessage, botText);
    }
  }
}
