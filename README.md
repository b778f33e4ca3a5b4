# Traffic-safety adviser chat: a Dafny model

The page `page.tsx` is a single-page adviser on road safety. It has two chat
threads: a main panel and a floating widget that a button opens and closes.
Both threads answer the user with a rule-based bot, `generateBotResponse`:
- The bot lower-cases the message.
- It then tests six keyword groups in a fixed order: greeting, alcohol, seat
  belt, speed, phone, fatigue.
- It returns the canned reply of the first group with a keyword in the message.
- When no group matches, it returns a fallback reply.

A send does three things:
- It ignores a buffer that is blank after trimming.
- Otherwise it appends the user's message, clears the buffer, and starts a
  600 ms timer.
- When the timer fires, it appends the bot's reply to the text that was sent.

The project has three modules:

- `Text` (`text.dfy`): the three JavaScript string operations the page uses,
  on strings of code points.
  - `Trim` is `String.prototype.trim`, over the whitespace set of ECMA-262.
  - `Lower` is `toLowerCase`, restricted to the letters listed under "## Left out".
  - `Includes` is `includes`, next to its specification `Contains`, which says
    that the substring occurs at some index.
- `Responder` (`responder.dfy`): `generateBotResponse`.
  - `Choose` is the if-chain. It names the branch taken, `Answer(topic)` or
    `Fallback`.
  - `ReplyText` maps each branch to its string, verbatim.
  - `GenerateBotResponse` composes lower-casing, `Choose` and `ReplyText`.
  - `FirstMentioned` is an independent reference rule: the position in
    `Priority` of the first group mentioned. The chain is proved to follow it.
  - The first-match rule is proved in both directions, on the branch and on
    the reply string.
- `Chat` (`chat.dfy`): the conversation controller.
  - `Conversation` is one thread. Its fields are the history, the input buffer
    and the queue of texts whose reply timer has not fired yet.
  - `Submit` is `handleSendMessage` / `handleSendFloatingMessage`.
  - `FireTimer` is the timer callback.
  - `Page` holds the two threads and the open/closed flag of the widget. Each
    of its operations leaves the other thread unchanged.
  - Every operation keeps the invariant `Consistent`:
    - the history starts with the bot's greeting;
    - its user messages are the sent texts, in order;
    - its other bot messages are `generateBotResponse` of the answered texts,
      in order;
    - in every prefix of the history the bot has sent at most one message per
      user message besides its greeting, so the k-th reply never comes before
      the k-th user message;
    - no sent text is blank.

## Model

| member | source | states |
|---|---|---|
| Text.TrimStart | page.tsx:41 | the leading half of trim; its behaviour is stated by Text.TrimStartSpec |
| Text.TrimEnd | page.tsx:41 | the trailing half of trim; its behaviour is stated by Text.TrimEndSpec |
| Text.Trim | page.tsx:41 | trim is s with a blank prefix and a blank suffix removed; it is empty exactly when every code point is whitespace, and otherwise neither starts nor ends with whitespace |
| Text.TrimStartSpec | page.tsx:41 | dropping leading whitespace keeps a suffix, removes only whitespace, and stops at a code point that is not whitespace |
| Text.TrimEndSpec | page.tsx:41 | dropping trailing whitespace keeps a prefix, removes only whitespace, and stops at a code point that is not whitespace |
| Text.LowerChar | page.tsx:441 | a lowered code point is never upper case; a code point that is not upper case is unchanged; an upper-case letter changes |
| Text.Lower | page.tsx:441 | toLowerCase keeps the length of the string |
| Text.LowerSpec | page.tsx:441 | the lower case holds no upper-case letter, and every other code point stays where it was |
| Text.LowerOfLowerCase | page.tsx:441 | a string without upper-case letters is its own lower case |
| Text.LowerIdempotent | page.tsx:441 | lower-casing twice is lower-casing once |
| Text.OccursInTail | page.tsx:443 | an occurrence at index i of the tail is an occurrence at index i+1 of the string, and conversely |
| Text.Includes | page.tsx:443 | includes; its behaviour is stated by Text.IncludesIff |
| Text.IncludesIff | page.tsx:443 | includes is true exactly when the substring occurs at some index |
| Responder.Keywords | page.tsx:443-463 | the keywords of each group, verbatim and in the order the chain checks them; AllKeywords joins the eleven |
| Responder.AnyIncluded | page.tsx:443 | the `\|\|` chain of includes tests of one group; its behaviour is stated by Responder.AnyIncludedIff |
| Responder.Mentions | page.tsx:443-463 | the condition of one `if` of the chain; its behaviour is stated by Responder.MentionsIff |
| Responder.Choose | page.tsx:443-467 | the if-chain, naming the branch it takes; its behaviour is stated by Responder.ChooseIsFirstMentioned, Responder.ChooseFirstMatch, Responder.ChooseFallback and Responder.ChooseGreetingFirst |
| Responder.ReplyText | page.tsx:444-467 | the verbatim string each branch returns; Responder.ReplyTextInjective states that the seven are distinct and non-empty |
| Responder.GenerateBotResponse | page.tsx:440-468 | generateBotResponse: lower-case the message, run the chain, return the branch's string; its behaviour is stated by Responder.FirstMatchWins, Responder.FallbackExactly, Responder.GreetingFirst, Responder.CaseInsensitive, Responder.ReplyNonEmpty and Responder.ReplyTextInjective |
| Responder.AnyIncludedIff | page.tsx:443 | a `\|\|` chain of includes tests over a keyword list is true exactly when one of the keywords occurs |
| Responder.MentionsIff | page.tsx:443-463 | the test of one group is true exactly when one of its keywords occurs in the lower-cased text |
| Responder.ReplyTextInjective | page.tsx:444-467 | the seven reply strings are pairwise different and none is empty, so the reply determines the branch taken |
| Responder.FirstMentioned | page.tsx:443-467 | the reference rule: the result is the position of a mentioned group, and no group before it is mentioned |
| Responder.ChooseIsFirstMentioned | page.tsx:443-467 | the if-chain answers with the group at the position the reference rule finds, or falls back when it finds none |
| Responder.ChooseFirstMatch | page.tsx:443-465 | group n answers exactly when it matches and no earlier group matches |
| Responder.ChooseFallback | page.tsx:467 | the fallback branch is taken exactly when none of the eleven keywords occurs |
| Responder.ChooseGreetingFirst | page.tsx:443-445 | a text containing "xin chào" or "hello" takes the greeting branch, whatever else it contains |
| Responder.FirstMatchWins | page.tsx:440-468 | generateBotResponse returns the reply of group n exactly when group n matches the lower-cased message and no earlier group does |
| Responder.FallbackExactly | page.tsx:440-468 | generateBotResponse returns the fallback exactly when none of the eleven keywords occurs in the lower-cased message |
| Responder.GreetingFirst | page.tsx:443-445 | a message whose lower case contains "xin chào" or "hello" gets the greeting reply |
| Responder.CaseInsensitive | page.tsx:441 | a message and its lower case get the same reply |
| Responder.ReplyNonEmpty | page.tsx:440-468 | the reply is never empty |
| Responder.MissingChar | page.tsx:443 | a substring with a code point that the text lacks does not occur in it |
| Responder.GreetingBeforeAlcoholExampleMatches | page.tsx:443 | "xin chào, tôi say rượu" contains the greeting keyword |
| Responder.GreetingBeforeAlcoholExample | page.tsx:443-449 | "xin chào, tôi say rượu" gets the greeting reply although it also mentions alcohol |
| Responder.UpperCaseGreetingExampleMatches | page.tsx:441-443 | "XIN CHÀO" lower-cases to a text that contains "xin chào" |
| Responder.UpperCaseGreetingExample | page.tsx:441-445 | "XIN CHÀO" gets the greeting reply |
| Responder.AlcoholExampleMatches | page.tsx:443-447 | "nồng độ cồn" matches the alcohol group and not the greeting group |
| Responder.AlcoholExample | page.tsx:447-449 | "nồng độ cồn" gets the alcohol reply |
| Responder.AlcoholBeforeSpeedExampleMatches | page.tsx:443-447 | "say rượu rồi tăng tốc độ" matches the alcohol group and not the greeting group |
| Responder.AlcoholBeforeSpeedExampleSpeed | page.tsx:455 | "say rượu rồi tăng tốc độ" matches the speed group too |
| Responder.AlcoholBeforeSpeedExample | page.tsx:447-457 | "say rượu rồi tăng tốc độ" mentions speed but gets the alcohol reply, since the alcohol group comes first |
| Responder.FallbackExampleMatchesNothing | page.tsx:443-463 | "hôm nay trời đẹp" contains none of the eleven keywords |
| Responder.FallbackExample | page.tsx:467 | "hôm nay trời đẹp" gets the fallback reply |
| Chat.RepliesTo | page.tsx:53-61 | there is one reply per answered text |
| Chat.RepliesToAt | page.tsx:56 | the i-th reply is generateBotResponse of the i-th answered text |
| Chat.RepliesToAppend | page.tsx:53-61 | answering one more text adds exactly its reply at the end |
| Chat.AppendMessage | page.tsx:50 | appending a message adds its text to the user texts or to the bot texts, by its sender, and to nothing else |
| Chat.NoneBlankConcat | page.tsx:41 | joining two lists of non-blank texts gives a list of non-blank texts |
| Chat.NoneBlankTail | page.tsx:41 | the oldest text of a list of non-blank texts is non-blank, and so is the rest |
| Chat.AppendFollow | page.tsx:50-60 | a user message may always be appended without a reply getting ahead of its question; a bot message may be appended while the user messages outnumber the replies |
| Chat.GreetingShape | page.tsx:19-26 | a thread holding only the greeting has no sent text and no reply |
| Chat.SubmitShape | page.tsx:43-51 | sending a non-blank text adds it as the last user message and the last pending text, and keeps the layout |
| Chat.FireShape | page.tsx:53-61 | a timer firing moves the oldest pending text to the answered ones and adds its reply as the last bot message, after the text it answers |
| Chat.Conversation.Main | page.tsx:19-27 | the main thread starts with the greeting with id "1", an empty buffer and nothing pending, and satisfies the invariant |
| Chat.Conversation.Floating | page.tsx:30-38 | the widget thread starts with the greeting with id "float-1", an empty buffer and nothing pending, and satisfies the invariant |
| Chat.Conversation.SetInput | page.tsx:143 | editing the input replaces the buffer and changes nothing else |
| Chat.Conversation.Submit | page.tsx:40-62 | a blank buffer changes nothing; otherwise one user message holding the raw buffer is appended, the buffer is cleared and the raw buffer is queued; the history only grows |
| Chat.Conversation.FireTimer | page.tsx:53-61 | the oldest queued text is answered by one bot message holding generateBotResponse of that text, not of the cleared buffer; with nothing queued nothing changes |
| Chat.Page.constructor | page.tsx:19-38 | both threads start at their greetings, empty and with nothing queued, and the widget is closed |
| Chat.Page.SendMessage | page.tsx:40-62 | a send on the main panel behaves as a send, and leaves the widget thread unchanged |
| Chat.Page.FireMainTimer | page.tsx:53-61 | a main-panel timer behaves as a timer firing, and leaves the widget thread unchanged |
| Chat.Page.EditFloatingInput | page.tsx:140-143 | the widget's onChange, available while the widget is open, sets its buffer, and leaves the main thread unchanged |
| Chat.Page.SendFloatingMessage | page.tsx:64-86 | a send in the widget, available while it is open, behaves as a send, and leaves the main thread unchanged |
| Chat.Page.FireFloatingTimer | page.tsx:77-85 | a widget timer behaves as a timer firing, and leaves the main thread unchanged |
| Chat.Page.OpenFloatingChat | page.tsx:93 | the chat button opens the widget |
| Chat.Page.CloseFloatingChat | page.tsx:114 | the close button closes the widget |
| Chat.AlcoholQuestionScenario | page.tsx:64-86 | asking "nồng độ cồn" in the widget appends the question at once, and when the timer fires, appends the alcohol reply |
| Chat.BlankSendScenario | page.tsx:65 | sending a buffer of spaces and a tab leaves the history and the buffer as they were |

## Left out

- Rendering is not modelled: the JSX, the styling, `next/image`, the icons and the `@/components/ui/*` components are presentation.
- The static datasets (`page.tsx:318-438`) are display data with no behaviour.
- The tab selector (`page.tsx:28`, `page.tsx:177`) is a plain setter.
- Message ids come from `Math.random` and are parameters of the operations. The model does not claim they are unique.
- Timestamps from `new Date()` are not part of the `Message` datatype.
- The 600 ms timer is not modelled as time or as an interleaving with the event loop.
  - Each pending reply is an entry in a FIFO queue, and `FireTimer` answers the oldest one.
  - The FIFO order is an assumption, justified because every timer has the same delay. The code does not enforce it.
- Timer input: the callback reads `inputValue` / `floatingInputValue` as they were in the render where the send happened. That is the text just sent, so the queue holds the sent text.
- React's functional state updates are not modelled separately: `setMessages((prev) => [...prev, m])` is an append to the history field.
- The timers of the widget go on firing after it is closed, as in the page; its input and send button exist only while it is open (`page.tsx:102-152`), so `Page.EditFloatingInput` and `Page.SendFloatingMessage` require the widget to be open.
- Main panel: `messages` and `handleSendMessage` belong to it, but page.tsx renders neither the panel's history nor a control bound to `handleSendMessage`. The model still gives the main thread the same operations as the widget, as the code defines them.
- Text.Lower: lower-cases ASCII, the Latin-1 capitals and the capitals of the Vietnamese alphabet. Full Unicode case mapping is not modelled; in particular, mappings that change the length are missing. Every property of the reply selector is stated over `Lower(userMessage)`, so none depends on this coverage, but `GenerateBotResponse` itself does. For example, on "điện thoạ" followed by U+0130 (capital I with dot above), JavaScript lower-cases the last letter to "i" followed by U+0307. That contains "điện thoại", so the page returns the phone reply. The model leaves U+0130 alone and returns the fallback.
- Text.Trim, Text.Includes and Text.Lower work on code points, while JavaScript strings are UTF-16 code units. Both views agree on text in the Basic Multilingual Plane, which holds every keyword and reply.
- GenerateBotResponse carries no `ensures` of its own. Two lemmas state its result set:
  - `Responder.ReplyTextInjective`: its seven possible strings are distinct and non-empty;
  - `Responder.FirstMatchWins` and `Responder.FallbackExactly`: when each of them is returned.
