# LINE webhook OTP receiver — Dafny model

This project models the logic of a small LINE webhook server
(`webhook_server.py`). The server receives `POST /callback` requests. It has
the LINE SDK check the `X-Line-Signature` header and dispatch the parsed
events. For each text message it searches the text with
`re.search(r'\b\d{6}\b', text)`. A match overwrites the file `otp.txt` with
the six-digit code, and the sender gets one of two canned replies.

The model is functional. Nothing in it is mutable state.

- `CharClasses` (`char_classes.dfy`): Python 3 evaluates `\d` and `\w` on `str`
  with Unicode semantics. The model therefore takes the two classes as a
  parameter `Classes(digit, word)`. It assumes only `WellFormed`: every digit is
  a word character. The concrete examples also assume `AgreesWithAscii`: the
  classes coincide with ASCII below code point 128. `Ascii()` is one instance
  that satisfies both.
- `OtpSearch` (`otp_search.dfy`): `\b`, `\d{6}` and the whole pattern are
  modelled as `BoundaryAt`, `DigitsAt` and `MatchAt`. `FirstMatchFrom` tries
  start positions left to right, as `re.search` does. `FindOtp` is
  `otp_match.group(0)`. `Search` is a one-pass scanner over runs of word
  characters, and it is proved to agree with `FirstMatchFrom`.
- `OtpExamples` (`otp_examples.dfy`): concrete messages and their outcomes.
- `MessageHandler` (`message_handler.dfy`): `handle_message`. The OTP file is
  a `Slot`, either `Missing` or `Holds(contents)`. The module also defines the
  two reply texts.
- `Webhook` (`webhook.dfy`): `callback` and the SDK's dispatch of a batch of
  events to `handle_message`. Signature verification is an input value
  (`Verified(events)` or `InvalidSignature`).

## Model

| member | source | states |
|---|---|---|
| `OtpSearch.MatchAtIffStandalone` | webhook_server.py:57 | when digits are word characters, `\b\d{6}\b` matches at `i` exactly when six digits start at `i`, no word character directly precedes them and none directly follows them |
| `OtpSearch.NoMatchInsideLongerRun` | webhook_server.py:57 | no six-digit window inside a run of seven or more digits matches the pattern |
| `OtpSearch.FirstMatchFrom` | webhook_server.py:57 | the position-by-position search returns a matching index at or after `from` with no match between `from` and it, and returns nothing exactly when no index from `from` on matches |
| `OtpSearch.LeftmostIsUnique` | webhook_server.py:57 | the leftmost match is unique, so `re.search`'s answer is determined by the pattern |
| `OtpSearch.FindOtp` | webhook_server.py:57-60 | a found code has six characters, all digits, and is the window of the leftmost match; nothing is found exactly when no index matches |
| `OtpSearch.FindOtpReturnsLeftmost` | webhook_server.py:57-60 | conversely, whenever `i` is the leftmost match, the code found is `s[i..i+6]` |
| `OtpSearch.CodeAfterDigitFreeText` | webhook_server.py:57-60 | a standalone six-digit token after digit-free text is the code found, whatever text follows it |
| `OtpSearch.Search` | webhook_server.py:57 | the single-pass scan returns the leftmost match, returns none exactly when nothing matches, and gives the same answer as the position-by-position search |
| `OtpSearch.RunEndsWithoutMatch` | webhook_server.py:57 | a maximal run of word characters that is not exactly six digits holds no match at its start, and the character that ends it starts no match |
| `OtpExamples.LeftmostOfTwo` | webhook_server.py:57 | `"try 111111 or 222222"` yields `"111111"` |
| `OtpExamples.CodeInSentence` | webhook_server.py:57 | `"your code is 483920 thanks"` yields `"483920"` |
| `OtpExamples.CodeBetweenPunctuation` | webhook_server.py:57 | `"-123456."` yields `"123456"` because punctuation is not a word character |
| `OtpExamples.SevenDigitsNoCode` | webhook_server.py:57 | `"code 1234567"` yields nothing |
| `OtpExamples.GluedToLettersNoCode` | webhook_server.py:57 | `"abc123456"` yields nothing because the letters make the digits part of a longer word |
| `OtpExamples.FiveDigitsNoCode` | webhook_server.py:57 | `"12345"` yields nothing |
| `MessageHandler.ThanksReply` | webhook_server.py:65-69 | a thank-you reply can never be the retry text, so the sender can always tell success from failure |
| `MessageHandler.ThanksReplyInjective` | webhook_server.py:65 | two different codes never produce the same thank-you reply |
| `MessageHandler.ReplyText` | webhook_server.py:59-69 | the retry text is chosen exactly when no code was found, and the thank-you reply exactly when one was |
| `MessageHandler.HandleMessage` | webhook_server.py:52-69 | if the text has a match, the slot afterwards holds the leftmost code and the reply thanks for that code; otherwise the slot is unchanged and the reply is the fixed retry text |
| `MessageHandler.HandlePreservesValidSlot` | webhook_server.py:59-63 | a slot that is missing or holds six digits stays so after a message is handled |
| `MessageHandler.MatchOverwritesSlot` | webhook_server.py:62-63 | on a match, the new slot is exactly the code, whatever the slot held before: mode "w" truncates and nothing is appended |
| `MessageHandler.HandleIsIdempotent` | webhook_server.py:59-69 | handling the same message a second time changes neither the slot nor the reply |
| `MessageHandler.ReportedCode` | webhook_server.py:65 | a code read back out of a reply rebuilds that reply |
| `MessageHandler.ReplyRoundTrip` | webhook_server.py:65-69 | reading a chosen reply back gives the search outcome it was chosen for: the code for the thank-you text, nothing for the retry text |
| `MessageHandler.ReplyReportsOutcome` | webhook_server.py:59-69 | the reply to a message, read back, is exactly the search's result for that message |
| `Webhook.TextEvents` | webhook_server.py:51 | the handler registered for text messages receives exactly the batch's text messages; with `TextEventsAppend` it keeps them in order |
| `Webhook.TextEventsAppend` | webhook_server.py:51 | selecting the text messages of two concatenated batches gives the selections of each batch, one after the other |
| `Webhook.Dispatch` | webhook_server.py:42-52 | after a batch, the slot is either as before or holds the code of one of the batch's text messages |
| `Webhook.RepliesFollowMessages` | webhook_server.py:65-77 | there is exactly one reply per text message; the k-th reply goes to the k-th text message's reply token and is the reply chosen for that message's search result |
| `Webhook.RepliesReportEachMessage` | webhook_server.py:65-77 | every reply of a batch, read back, gives the search result of the message it answers |
| `Webhook.DispatchRepliesIgnoreSlot` | webhook_server.py:59-77 | the replies to a batch depend only on its messages, never on what the slot held before |
| `Webhook.DispatchAppend` | webhook_server.py:42-52 | dispatching two batches one after the other gives the same final slot as dispatching their concatenation, and the first batch's replies followed by the second's |
| `Webhook.NoCodeKeepsSlot` | webhook_server.py:66-69 | a batch in which no text message has a code leaves the slot untouched |
| `Webhook.LastCodeWins` | webhook_server.py:59-63 | the slot ends up holding the code of the last message in the batch that has one |
| `Webhook.DispatchPreservesValidSlot` | webhook_server.py:59-63 | a batch keeps a missing or six-digit slot missing or six-digit |
| `Webhook.Callback` | webhook_server.py:41-46 | an invalid signature gives status 400 and leaves the slot and replies untouched; otherwise the response is `'OK'`, and the slot and replies are those of dispatching the batch |
| `Webhook.AcceptedBatchStoresLastCode` | webhook_server.py:41-63 | an accepted request whose last code-carrying text message holds `code` is answered `'OK'` and leaves exactly `code` in the slot |
| `Webhook.CallbackPreservesValidSlot` | webhook_server.py:41-63 | no request, accepted or rejected, makes a missing or six-digit slot invalid |

Three points about the program's behaviour are easy to misread:

- `\b` is a word boundary, not a digit boundary. Letters and `_` next to the
  six digits block a match just as a seventh digit does
  (`GluedToLettersNoCode`).
- `\d` on a Python 3 `str` matches any Unicode decimal digit. A stored code
  is therefore six characters of the `digit` class, and they need not be
  ASCII.
- `open("otp.txt", "w")` is a plain truncating write, not an atomic replace.
  The model treats the file as a register that is overwritten.

## Left out

- Flask routing, request and header access, and `app.run`
  (webhook_server.py:19, 32-37, 83-84). A missing `X-Line-Signature` header
  makes line 35 raise before the SDK runs, and the request ends with a server
  error.
- The SDK's HMAC check and the parsing of the JSON body into events
  (webhook_server.py:27, 42). They are foreign code, so the model receives
  their result as a `Verification` value. The order of batched events is
  whatever the SDK chooses, and the lemmas hold for any order.
- The outbound reply API call (webhook_server.py:72-79). The model keeps only
  the chosen reply text and reply token, as a `Reply`.
- Environment and `.env` configuration (webhook_server.py:16, 22-27).
- Logging and `print` (webhook_server.py:38, 44, 61, 67).
- File-system and network failures (webhook_server.py:62-63, 74). This path
  is not modelled.
  - `open("otp.txt", "w")` empties the file before `f.write` runs. A failing
    write therefore leaves an empty file, for example when a non-ASCII digit
    cannot be encoded in the locale's encoding. An empty file is not a
    `ValidSlot`. `HandlePreservesValidSlot`, `DispatchPreservesValidSlot` and
    `CallbackPreservesValidSlot` cover only runs where the write succeeds.
  - The exception also stops the rest of the batch. The request then ends
    with a server error, not `'OK'`. `Callback`'s `'OK'` promise and
    `AcceptedBatchStoresLastCode` cover only runs without such failures.
  - A failing reply call raises after the code was written, with the same
    effect on the rest of the batch and on the response.
  - Durability, atomicity and concurrent writers are not modelled either.
- Lone surrogate code points. Dafny's `char` is a Unicode scalar value, while
  a Python `str` can also hold a lone surrogate, for example from a JSON
  `\ud83d` escape in the body. Such a character is neither `\d` nor `\w`, so
  it behaves like any other non-word character and the search outcome is the
  same.
- The full Unicode tables behind `\d` and `\w`. They are parameters
  constrained only by `WellFormed` and, for the examples, `AgreesWithAscii`.
