# test-bot chat core, modelled in Dafny

The repository is a one-page Next.js chat widget with a serverless relay.
A visitor types a message, which the page logs as a `user` message. The page
then posts the message, together with the visitor's IP address, to
`/api/send-message`. That endpoint forwards it to a Telegram bot. After the
post, the page appends one `bot` message to the log. If the post returned a
JSON answer, that message is a canned reply chosen on the client, whatever
the relay's status was, even 500 (except a message that cleans to
"constructor"; see "## Findings"). If the post or its JSON parsing threw, the
message is an apology.

The model covers three pieces of logic:

- **Canned-reply selection** (module `Canned`). `cleanInput` lower-cases the
  text, deletes every character outside ASCII letters, digits, the Bengali
  ranges U+0985–U+09B9 and U+09BE–U+09F3, and space, then trims.
  `correctSpelling` replaces the whole text only when it is exactly one of
  five misspellings of "রোজা". The `for…in` scan over `predefinedAnswers`
  picks the answer of the first key, in table order, that occurs in the
  corrected text. If no key occurs, the reply is a fixed Bengali fallback.
  The table is an ordered sequence of pairs, because `for…in` visits these
  string keys in insertion order. The scan is the method `ChooseReply`,
  with a `while` loop and an early exit. It is proved equal to the
  specification function `SelectReply`.
- **The send step** (module `Chat`). The page's state is the class
  `ChatClient`, with the fields `messages` and `input`. It also has the
  immutable field `answers`, which holds `predefinedAnswers` and is set to
  the keyword table when the page is created. `SendMessage` is
  `sendMessage` run to completion. The outcome of the IP lookup and the
  outcome of the relay call are parameters of the method.
- **The relay endpoint** (module `Relay`). The handler is the pure function
  `Handle`. It takes the HTTP method, the `message` field, the reported IP,
  the two credentials and the bot API's outcome. It returns the single
  response and the bot API call it made, if any.

Two modules support them. `JsText` holds the JavaScript string primitives
both files use: `trim` with the ECMAScript whitespace set, the blank test
`!s.trim()`, and `includes`. `Wrappers` holds `Option`.
`CannedScenarios` proves concrete conversations, for example:

- "this price" gets the "hi" reply, because "hi" comes first in the table;
- "আমি রোজা রাখতে চাই" gets the fasting reply;
- "Roza" is corrected and matched;
- "ROZA please" is not corrected and falls back.

A misspelling is corrected only when it is the whole cleaned text. So
"ROZA please" is not corrected, and it gets the fallback
(`CannedScenarios.PhraseWithMisspellingFallsBack`). Punctuation is removed
before matching, so "price?" gets the price answer
(`CannedScenarios.PunctuationIgnored`).

## Model

| member | source | states |
|---|---|---|
| JsText.TrimStartShape | pages/api/send-message.js:9 | about `TrimStart`: leading `trim` drops exactly the longest whitespace prefix: what it drops is whitespace, what it keeps is the rest of the string, and what it keeps starts with non-whitespace |
| JsText.TrimEndShape | pages/api/send-message.js:9 | about `TrimEnd`: trailing `trim` drops exactly the longest whitespace suffix, symmetrically |
| JsText.Trim | pages/index.js:33 | `trim` never lengthens the string, and its result neither starts nor ends with whitespace |
| JsText.TrimIsSubstring | pages/index.js:33 | the trimmed string occurs contiguously in the original, so every character of it comes from the original |
| JsText.TrimEmptyIff | pages/index.js:41 | `!s.trim()` holds exactly when every character of `s` is whitespace, in both directions |
| JsText.TrimFixed | pages/index.js:33 | a string with no whitespace at either end is unchanged by `trim` |
| JsText.IsBlank | pages/index.js:41 | (predicate, no contract) `!s.trim()`; `TrimEmptyIff` states what that means |
| JsText.Includes | pages/index.js:72 | (function, no contract) `String.prototype.includes`, by a scan over start offsets; `IncludesIff` states what that means |
| JsText.IncludesIff | pages/index.js:72 | `includes(k)` holds exactly when `k` occurs at some offset, in both directions |
| JsText.IncludesChars | pages/index.js:72 | every character of an included string occurs in the including string |
| Canned.Allowed | pages/index.js:33 | (predicate, no contract) the regular expression's character class: ASCII letters and digits, U+0985–U+09B9, U+09BE–U+09F3 and space; `StripDisallowed` and `CleanOutput` state what the filter does with it |
| Canned.LowerChar | pages/index.js:33 | an upper-case ASCII letter becomes the lower-case letter at the same alphabet position; U+0130 becomes "i" plus U+0307 and U+212A becomes "k"; any other character is kept; every character but U+0130 maps to exactly one character, and no result holds an upper-case ASCII letter |
| Canned.ToLower | pages/index.js:33 | `toLowerCase` leaves no upper-case ASCII letter |
| Canned.ToLowerPointwise | pages/index.js:33 | on a string without U+0130, lower-casing keeps the length and maps each position through `LowerChar` |
| Canned.StripDisallowed | pages/index.js:33 | the regular-expression filter never lengthens the text and keeps only allowed characters, each taken from the input; a single character is kept exactly when it is allowed |
| Canned.StripAppend | pages/index.js:33 | the filter works character by character: it distributes over concatenation |
| Canned.Clean | pages/index.js:33 | `cleanInput` is no longer than the lower-cased input; what it yields is characterised by `CleanOutput`, `CleanFixed` and `CleanIdempotent` |
| Canned.CleanOutput | pages/index.js:33 | `cleanInput` output holds only lower-case ASCII letters, digits, characters of the two Bengali ranges and spaces, and has no space at either end |
| Canned.ToLowerFixed | pages/index.js:33 | lower-casing a string already made of clean characters changes nothing |
| Canned.ToLowerAppend | pages/index.js:33 | lower-casing works character by character: it distributes over concatenation |
| Canned.StripFixed | pages/index.js:33 | the filter leaves a string of allowed characters unchanged |
| Canned.CleanFixed | pages/index.js:33 | a clean string without edge spaces is its own `cleanInput` |
| Canned.CleanIsLowerCase | pages/index.js:33 | when the lower-cased input is already clean, `cleanInput` is just lower-casing |
| Canned.CleanIdempotent | pages/index.js:33 | cleaning a cleaned string returns it unchanged |
| Canned.TrailingDropped | pages/index.js:33 | a trailing character the filter removes, such as "?", does not change what an already clean text cleans to |
| Canned.TrailingKept | pages/index.js:33 | a clean text followed by a character without a case mapping is unchanged by lower-casing |
| Canned.TrailingStripped | pages/index.js:33 | a clean text followed by a disallowed character filters to the clean text |
| Canned.CorrectSpelling | pages/index.js:34-37 | the text changes exactly when it is one of the five misspellings, and then becomes "রোজা" |
| Canned.PhraseNotCorrected | pages/index.js:34-36 | a misspelling inside a longer phrase ("roza please") is not corrected |
| Canned.OnlyConstructorIsClean | pages/index.js:33-36 | of the names every JavaScript object inherits, only "constructor" can be the output of `cleanInput` |
| Canned.CorrectSpellingAsWritten | pages/index.js:34-36 | the lookup as written finds an inherited member exactly when the text is not a misspelling but is the name of a member every object inherits; otherwise it yields what `CorrectSpelling` yields |
| Canned.ReplyAsWritten | pages/index.js:33-76 | the pipeline as written has no reply exactly when the cleaned text is an inherited member's name and not a misspelling; otherwise its reply is `ReplyTo`'s |
| Canned.AsWrittenLookupAgrees | pages/index.js:34-36 | on cleaned text, the lookup as written finds an inherited member exactly for "constructor", and otherwise agrees with the own-key correction |
| Canned.AsWrittenDeparture | pages/index.js:34-36 | the pipeline as written fails exactly when the cleaned text is "constructor"; whenever it yields a reply, that reply is the own-key pipeline's |
| Canned.KeyOccurs | pages/index.js:72 | (predicate, no contract) the lower-cased key occurs in the corrected text; `JsText.IncludesIff` and `Canned.TableKeysLower` state what that means |
| Canned.FirstMatch | pages/index.js:71-76 | the scan's result, when it finds one, is an entry of the table at or after the starting point |
| Canned.FirstMatchFound | pages/index.js:71-75 | when the scan finds an entry, its lower-cased key occurs in the text and no earlier key does |
| Canned.FirstMatchNone | pages/index.js:71-76 | when the scan finds nothing, no key of the table occurs in the text |
| Canned.SelectReply | pages/index.js:65-76 | the scan's reply is the fallback or the answer of some table entry; `FirstKeyWins` and `NoKeyFallback` say which |
| Canned.ReplyTo | pages/index.js:65-76 | the reply to a message is the fallback or the answer of some table entry |
| Canned.ChooseReply | pages/index.js:65-76 | the `for…in` loop with `break`, over any answer table, yields the answer of the first key that occurs, or the fallback when none does |
| Canned.FirstKeyWins | pages/index.js:71-75 | when several keys occur, the earliest entry's answer is the reply |
| Canned.NoKeyFallback | pages/index.js:65-76 | when no key occurs, the reply is the fallback |
| Canned.TableKeysLower | pages/index.js:11-18 | every key of the page's table is its own lower case, so `key.toLowerCase()` is the key itself |
| Canned.MissingChar | pages/index.js:72 | a key holding a character absent from the text does not occur in it |
| Canned.TableReplyAt | pages/index.js:71-75 | over the page's table, the first key that occurs as written selects its answer |
| Canned.TableFallback | pages/index.js:65-76 | over the page's table, text holding no key as written gets the fallback |
| Canned.MissesEveryKey | pages/index.js:65-76 | over the page's table, text that lacks some character of each of the six keys gets the fallback |
| Canned.CleanTextUnchanged | pages/index.js:33-37 | text that is already clean and is not a misspelling passes through cleaning and correction unchanged |
| CannedScenarios.ThisPriceSelectsHi | pages/index.js:11-18 | "this price" holds "hi", the second key, and not the first, so the scan selects the "hi" entry |
| CannedScenarios.EarlierEntryWins | pages/index.js:11-18 | the message "this price" gets the "hi" answer, not the "price" answer |
| CannedScenarios.SentenceSelectsFasting | pages/index.js:71-75 | "আমি রোজা রাখতে চাই" holds "রোজা" and selects the first entry |
| CannedScenarios.BengaliSentenceMatches | pages/index.js:69-76 | the message "আমি রোজা রাখতে চাই" gets the fasting answer |
| CannedScenarios.CanonicalSelectsFasting | pages/index.js:71-75 | the corrected word "রোজা" selects the first entry |
| CannedScenarios.LowerCaseOf | pages/index.js:33 | a string lower-cases to a given string when each character lower-cases to the corresponding one |
| CannedScenarios.LoneMisspellingMatches | pages/index.js:33-37 | the message "Roza" is lower-cased, corrected to "রোজা" and gets the fasting answer |
| CannedScenarios.PhraseCleaned | pages/index.js:33-37 | "ROZA please" cleans and corrects to "roza please" |
| CannedScenarios.PhraseSelectsNothing | pages/index.js:65-76 | no key occurs in "roza please", so the scan leaves the fallback |
| CannedScenarios.PhraseLowerCase | pages/index.js:33 | "ROZA please" lower-cases to "roza please" |
| CannedScenarios.PhraseWithMisspellingFallsBack | pages/index.js:34-36 | the message "ROZA please" is not corrected and gets the fallback |
| CannedScenarios.ConstructorSelectsNothing | pages/index.js:65-76 | no key occurs in "constructor", so the scan leaves the fallback |
| CannedScenarios.ConstructorShowsApologyAsWritten | pages/index.js:34-36 | the message "constructor" makes the lookup as written fail, although the own-key pipeline gives it the fallback |
| CannedScenarios.QuestionCleaned | pages/index.js:33 | "price?" cleans to "price" |
| CannedScenarios.PriceSelectsPrice | pages/index.js:11-18 | "price" holds none of the first three keys and holds "price", so the scan selects the price entry |
| CannedScenarios.PunctuationIgnored | pages/index.js:33-76 | the message "price?" gets the price answer |
| Relay.ForwardedText | pages/api/send-message.js:20 | the forwarded text is exactly "User Message: ", the message, a newline and "User IP: ", then the reported IP, which is not checked |
| Relay.UpstreamResponse | pages/api/send-message.js:28-36 | status 200 exactly when the bot API answered with `ok`, and then the body carries its `result`; otherwise status 500 with a failure body |
| Relay.Handle | pages/api/send-message.js:2-37 | the bot API is called exactly when the method is POST, the message is valid and both credentials are set, with the token, chat id and forwarded text; 200 exactly when that call answered `ok`; the status is always one of 200, 400, 405, 500 |
| Relay.Configured | pages/api/send-message.js:16 | (predicate, no contract) a credential is set and not empty; `Relay.MissingCredentialsRejected` and `Relay.Handle` state its effect |
| Relay.ValidMessage | pages/api/send-message.js:9 | (predicate, no contract) the message is a non-empty string that is not blank; `ValidMessageIff` states what that means |
| Relay.ValidMessageIff | pages/api/send-message.js:9-11 | a message passes validation exactly when it is a string with at least one non-whitespace character |
| Relay.NonPostRejected | pages/api/send-message.js:3-5 | any method but POST gets 405 "Method Not Allowed", whatever the body or credentials, with no upstream call |
| Relay.InvalidMessageRejected | pages/api/send-message.js:9-11 | a POST with an invalid message gets 400 "Invalid message", whatever the credentials, with no upstream call |
| Relay.MissingCredentialsRejected | pages/api/send-message.js:13-18 | a valid POST with a missing or empty token or chat id gets 500 "Bot credentials not configured", with no upstream call |
| Relay.UpstreamDecides | pages/api/send-message.js:22-36 | with all guards passed: `ok` gives 200 with the result; not `ok` gives 500 with the description, or "Telegram API error" when it is absent or empty; a thrown error gives 500 with its message |
| Chat.ExchangesAppend | pages/index.js:40-83 | appending a non-blank user message and a bot message keeps the log made of whole sends |
| Chat.UserTextsAppend | pages/index.js:28-30 | the visitor's texts of a concatenated log are those of its parts, in order |
| Chat.BotText | pages/index.js:64-82 | (function, no contract) the bot text after a send; `ReplyIgnoresStatus` and `ReplyFor` state what it is |
| Chat.ReplyIgnoresStatus | pages/index.js:56-81 | the bot message never depends on the relay's status: it is the canned reply whenever the call returns, and the apology when it throws |
| Chat.PostedMessagesPassValidation | pages/api/send-message.js:3-11 | what the page posts always passes the relay's method and message checks, so the answer is 200 or 500, never 400 or 405 |
| Chat.ReplyFor | pages/index.js:64-82 | the bot text is the cleaned, corrected, first-match reply after a returned call, and the apology after a thrown one |
| Chat.UserTextsOfSend | pages/index.js:43-45 | one send contributes exactly the typed text to the visitor's texts |
| Chat.SendStep | pages/index.js:40-83 | one send keeps the log made of whole sends and appends exactly one visitor text |
| Chat.ChatClient.constructor | pages/index.js:5-18 | the page starts with an empty log, an empty text field and the keyword table as its answers |
| Chat.ChatClient.SetInput | pages/index.js:45 | the text field takes the given value |
| Chat.ChatClient.AppendMessage | pages/index.js:28-30 | one message is added at the end and nothing before it changes |
| Chat.ChatClient.Send | pages/index.js:43-82 | after the blank check: the raw input is logged, the field cleared, the input posted with the IP or the placeholder, and exactly one bot message appended; the log stays made of whole sends and gains exactly the typed text |
| Chat.ChatClient.SendMessage | pages/index.js:40-83 | blank input changes nothing and posts nothing. Otherwise: the raw input is logged as the user's message and the field is cleared; the input is posted with the looked-up IP or "IP_FETCH_FAILED"; exactly one bot message follows (the canned reply if the relay call returned, the apology if it threw); the log only grows and stays made of whole sends |

## Left out

- The JSX, the inline styles, the header buttons and the scroll-to-bottom effect: presentation and DOM side effects only.
- The network calls themselves (ipify, `/api/send-message`, the bot API) and their JSON parsing. They are outcome parameters: `IpLookup`, `RelayCall` and `Relay.Upstream`.
- `RelayCall`: a failure of `res.json()` on the page counts as a thrown call, like a failed `fetch`. The response body the relay returns is ignored by the page, so it is not modelled.
- `process.env`: the two credentials are optional-string parameters of `Relay.Handle`.
- `encodeURIComponent` and the bot API's URL layout: the call is modelled as its three parts (token, chat id, text), not as a URL.
- `console.error` logging on both sides.
- Overlapping sends: `sendMessage` is asynchronous, and a second send can start before the first has finished, so replies can arrive out of order. The model runs one send at a time.
- Chat.ChatClient.SendMessage: the bot message is modelled with the own-key correction. As written, a cleaned "constructor" makes the page show the apology even when the relay call returned; see the row under "## Findings", and `Canned.ReplyAsWritten` for the pipeline as written.
- Chat.ChatClient.Send, Chat.ReplyFor, Chat.BotText and Chat.ReplyIgnoresStatus: the same corrected reply as `SendMessage`, for the same reason.
- Chat.ChatClient.SendMessage: an IP lookup that returns JSON without a string `ip` field makes the page post `undefined`. The model only has a found string or a failure.
- Relay.Handle: a `req.body` that is `null` or `undefined` makes the destructuring throw before any response. (A string body does not throw: its `message` is `undefined`, which is the `NotText` case and gets 400.) The model takes the `message` field as given, with "not a string" covering an absent field. An `ip` that is not a string is not modelled either, because the relay interpolates whatever it receives.
- Relay.Upstream: a truthy `ok` that is not `true`, and a non-string `description`, are not modelled. `ok` is a boolean and `description` an optional string.
- Canned.LowerChar: ASCII capitals, U+0130 (to "i" plus U+0307) and U+212A (to "k") are mapped exactly, and every other character is kept. That is exact for characters without a case mapping, which include everything the filter keeps apart from the capitals. For the other cased characters (such as 'É'), both the character and its true lower case lie outside the filter's set, so `Canned.Clean` is exact even though `Canned.ToLower` is not.
- Strings are sequences of code points. JavaScript strings are UTF-16, but every character the filter keeps, and every character of the table, is a single code unit.

## Findings

| source | as written | input that shows it | evidently intended | confidence | as-written member | corrected member |
|---|---|---|---|---|---|---|
| pages/index.js:34-36 | `corrections[input] \|\| input` is a property read on an object literal, so it also finds members every object inherits. A cleaned "constructor" yields the `Object` function; the following `corrected.includes(...)` then throws, and the page shows the server-error apology | the message "constructor" (in any letter case, with surrounding spaces) | a lookup among the five misspellings only: "constructor" passes through unchanged, no key occurs, and the fallback reply is shown | not executed | CannedScenarios.ConstructorShowsApologyAsWritten | Canned.CorrectSpelling |
