/** The two conversation threads of the page: the main panel (messages,
    inputValue, handleSendMessage) and the floating widget (floatingMessages,
    floatingInputValue, handleSendFloatingMessage), with the widget's
    open/closed flag. Each send schedules the bot's reply on a 600 ms timer;
    the timers are modelled as a FIFO queue of the texts they will answer. */
module Chat {
  import opened Text
  import opened Responder

  datatype Sender = User | Bot

  /** A chat message. The id is an opaque string (the page draws it from
      Math.random, or fixes it for the greetings); the timestamp is not
      modelled. */
  datatype Message = Message(id: string, text: string, sender: Sender)

  /** The greetings the two threads start with. */
  const MainGreeting: string := "Xin chào! Mình là cố vấn an toàn giao thông. Bạn có câu hỏi gì về lái xe, luật giao thông hay an toàn đường bộ không?"
  const FloatingGreeting: string := "Xin chào! Có gì tôi có thể giúp bạn?"

  /** The texts of the user messages of a history, oldest first. */
  function UserTexts(history: seq<Message>): seq<string>
    decreases |history|
  {
    if history == [] then []
    else
      var last := history[|history| - 1];
      UserTexts(history[..|history| - 1]) + (if last.sender == User then [last.text] else [])
  }

  /** The texts of the bot messages of a history, oldest first. */
  function BotTexts(history: seq<Message>): seq<string>
    decreases |history|
  {
    if history == [] then []
    else
      var last := history[|history| - 1];
      BotTexts(history[..|history| - 1]) + (if last.sender == Bot then [last.text] else [])
  }

  /** The replies the bot gives to a list of submitted texts, in order. */
  function RepliesTo(texts: seq<string>): (r: seq<string>)
    ensures |r| == |texts|
    decreases |texts|
  {
    if texts == [] then []
    else RepliesTo(texts[..|texts| - 1]) + [GenerateBotResponse(texts[|texts| - 1])]
  }

  /** The i-th reply is generateBotResponse of the i-th submitted text. */
  lemma {:induction false} RepliesToAt(texts: seq<string>, i: nat)
    requires i < |texts|
    ensures RepliesTo(texts)[i] == GenerateBotResponse(texts[i])
    decreases |texts|
  {
    if i < |texts| - 1 {
      RepliesToAt(texts[..|texts| - 1], i);
    }
  }

  /** Appending one message adds its text to the user texts or to the bot
      texts, according to its sender, and to nothing else. */
  lemma AppendMessage(history: seq<Message>, m: Message)
    ensures UserTexts(history + [m]) == UserTexts(history) + (if m.sender == User then [m.text] else [])
    ensures BotTexts(history + [m]) == BotTexts(history) + (if m.sender == Bot then [m.text] else [])
  {
    assert (history + [m])[..|history|] == history;
  }

  /** No text of the list is blank. */
  ghost predicate NoneBlank(texts: seq<string>) {
    forall i :: 0 <= i < |texts| ==> Trim(texts[i]) != ""
  }

  /** Joining two lists of non-blank texts gives a list of non-blank texts. */
  lemma NoneBlankConcat(a: seq<string>, b: seq<string>)
    requires NoneBlank(a) && NoneBlank(b)
    ensures NoneBlank(a + b)
  {
    forall i | 0 <= i < |a + b| ensures Trim((a + b)[i]) != "" {
      if i < |a| {
        assert (a + b)[i] == a[i];
      } else {
        assert (a + b)[i] == b[i - |a|];
      }
    }
  }

  /** Taking the first text off a list of non-blank texts leaves one. */
  lemma NoneBlankTail(texts: seq<string>)
    requires NoneBlank(texts) && texts != []
    ensures Trim(texts[0]) != "" && NoneBlank(texts[1..])
  {
    forall i | 0 <= i < |texts| - 1 ensures Trim(texts[1..][i]) != "" {
      assert texts[1..][i] == texts[i + 1];
    }
  }

  /** The layout of a thread's history, given the replies the bot has sent:
      the history opens with the bot's greeting; the user messages are the
      submitted texts, the answered ones first and then the pending ones; the
      bot messages after the greeting are the replies, one per answered text,
      in order; every reply comes after the text it answers; and no submitted
      text is blank. */
  ghost predicate Shape(history: seq<Message>, answered: seq<string>, pending: seq<string>,
                        replies: seq<string>) {
    |history| > 0 && history[0].sender == Bot &&
    UserTexts(history) == answered + pending &&
    BotTexts(history) == [history[0].text] + replies && |replies| == |answered| &&
    RepliesFollow(history) &&
    NoneBlank(answered) && NoneBlank(pending)
  }

  /** In every prefix of the history the bot has sent at most its greeting
      plus one message per user message so far: the k-th reply after the
      greeting never comes before the k-th user message. */
  ghost predicate RepliesFollow(history: seq<Message>) {
    forall n :: 0 <= n <= |history| ==> |BotTexts(history[..n])| <= |UserTexts(history[..n])| + 1
  }

  /** A user message may always be appended; a bot message only while the
      user messages outnumber the bot's replies. */
  lemma AppendFollow(history: seq<Message>, m: Message)
    requires RepliesFollow(history)
    requires m.sender == User || |BotTexts(history)| <= |UserTexts(history)|
    ensures RepliesFollow(history + [m])
  {
    var h := history + [m];
    forall n | 0 <= n <= |h| ensures |BotTexts(h[..n])| <= |UserTexts(h[..n])| + 1 {
      if n <= |history| {
        assert h[..n] == history[..n];
      } else {
        assert h[..n] == h;
        assert history[..|history|] == history;
        AppendMessage(history, m);
      }
    }
  }

  /** The invariant of a thread, on its values: its history has the layout
      above, and the replies are generateBotResponse of the answered texts. */
  ghost predicate Consistent(history: seq<Message>, answered: seq<string>, pending: seq<string>) {
    Shape(history, answered, pending, RepliesTo(answered))
  }

  /** Answering one more text adds its reply at the end of the replies. */
  lemma RepliesToAppend(texts: seq<string>, text: string)
    ensures RepliesTo(texts + [text]) == RepliesTo(texts) + [GenerateBotResponse(text)]
  {
    assert (texts + [text])[..|texts|] == texts;
  }

  /** A thread starts with only its greeting, nothing sent and no reply. */
  lemma GreetingShape(greeting: Message)
    requires greeting.sender == Bot
    ensures Shape([greeting], [], [], [])
  {
    AppendMessage([], greeting);
    assert [greeting][..0] == [] && [greeting][..1] == [greeting];
  }

  /** Sending a non-blank text keeps the layout: the text becomes the last
      user message and the last pending text. */
  lemma SubmitShape(history: seq<Message>, answered: seq<string>, pending: seq<string>,
                    replies: seq<string>, id: string, text: string)
    requires Shape(history, answered, pending, replies)
    requires Trim(text) != ""
    ensures Shape(history + [Message(id, text, User)], answered, pending + [text], replies)
  {
    AppendMessage(history, Message(id, text, User));
    AppendFollow(history, Message(id, text, User));
    assert (history + [Message(id, text, User)])[0] == history[0];
    assert answered + (pending + [text]) == (answered + pending) + [text];
    NoneBlankConcat(pending, [text]);
  }

  /** Answering the oldest pending text keeps the layout: the text moves to
      the answered ones and its reply becomes the last bot message. */
  lemma FireShape(history: seq<Message>, answered: seq<string>, pending: seq<string>,
                  replies: seq<string>, id: string, reply: string)
    requires Shape(history, answered, pending, replies)
    requires pending != []
    ensures Shape(history + [Message(id, reply, Bot)], answered + [pending[0]], pending[1..],
                  replies + [reply])
  {
    var history' := history + [Message(id, reply, Bot)];
    AppendMessage(history, Message(id, reply, Bot));
    AppendFollow(history, Message(id, reply, Bot));
    assert history'[0] == history[0];
    assert (answered + [pending[0]]) + pending[1..] == answered + pending;
    assert ([history[0].text] + replies) + [reply] == [history[0].text] + (replies + [reply]);
    NoneBlankTail(pending);
    NoneBlankConcat(answered, [pending[0]]);
  }

  /** One conversation thread: its history, its input buffer, and the texts
      whose reply timer has not fired yet, oldest first. */
  class Conversation {
    var messages: seq<Message>
    var input: string
    var pending: seq<string>
    /** The submitted texts whose reply has been appended, oldest first. */
    ghost var answered: seq<string>

    /** The thread invariant, on the current values of the fields. */
    ghost predicate Valid()
      reads this
    {
      Consistent(messages, answered, pending)
    }

    /** The main panel's initial state, page.tsx lines 19-27. */
    constructor Main()
      ensures Valid()
      ensures messages == [Message("1", MainGreeting, Bot)] && input == "" && pending == []
    {
      messages := [Message("1", MainGreeting, Bot)];
      input := "";
      pending := [];
      answered := [];
      new;
      GreetingShape(Message("1", MainGreeting, Bot));
    }

    /** The floating widget's initial state, page.tsx lines 30-38. */
    constructor Floating()
      ensures Valid()
      ensures messages == [Message("float-1", FloatingGreeting, Bot)] && input == "" && pending == []
    {
      messages := [Message("float-1", FloatingGreeting, Bot)];
      input := "";
      pending := [];
      answered := [];
      new;
      GreetingShape(Message("float-1", FloatingGreeting, Bot));
    }

    /** What a send does to this thread: a blank buffer changes nothing;
        otherwise the raw buffer is appended as a user message, the buffer is
        cleared and the raw buffer is queued for a reply. */
    twostate predicate Submitted(id: string, accepted: bool)
      reads this
    {
      accepted == (Trim(old(input)) != "") &&
      if accepted then
        messages == old(messages) + [Message(id, old(input), User)] &&
        input == "" && pending == old(pending) + [old(input)]
      else
        messages == old(messages) && input == old(input) && pending == old(pending)
    }

    /** What a reply timer does to this thread: the oldest queued text is
        answered by one bot message holding generateBotResponse of that text;
        with nothing queued there is no timer and nothing changes. */
    twostate predicate Fired(id: string, fired: bool)
      reads this
    {
      fired == (old(pending) != []) &&
      if fired then
        messages == old(messages) + [Message(id, GenerateBotResponse(old(pending)[0]), Bot)] &&
        input == old(input) && pending == old(pending)[1..]
      else
        messages == old(messages) && input == old(input) && pending == old(pending)
    }

    /** The input's onChange handler: the buffer becomes the edited text. */
    method SetInput(text: string)
      requires Valid()
      modifies this
      ensures Valid()
      ensures input == text && messages == old(messages) && pending == old(pending)
    {
      input := text;
    }

    /** handleSendMessage / handleSendFloatingMessage. The reply is computed
        later from the text queued here, which is the buffer as it was when
        the user sent it: the timer's closure captured that value. */
    method Submit(id: string) returns (accepted: bool)
      requires Valid()
      modifies this
      ensures Valid()
      ensures Submitted(id, accepted)
      ensures old(messages) <= messages
    {
      if Trim(input) == "" {
        return false;
      }
      var userMessage := Message(id, input, User);
      SubmitShape(messages, answered, pending, RepliesTo(answered), id, input);
      messages := messages + [userMessage];
      pending := pending + [input];
      input := "";
      accepted := true;
    }

    /** The timer callback of a send: appends the bot's reply to the oldest
        text still waiting. */
    method FireTimer(id: string) returns (fired: bool)
      requires Valid()
      modifies this
      ensures Valid()
      ensures Fired(id, fired)
      ensures old(messages) <= messages
    {
      if pending == [] {
        return false;
      }
      var text := pending[0];
      var botMessage := Message(id, GenerateBotResponse(text), Bot);
      FireShape(messages, answered, pending, RepliesTo(answered), id, botMessage.text);
      RepliesToAppend(answered, text);
      messages := messages + [botMessage];
      answered := answered + [text];
      pending := pending[1..];
      fired := true;
    }
  }

  /** The page: both threads and the floating widget's open/closed flag. */
  class Page {
    const main: Conversation
    const floating: Conversation
    var isFloatingChatOpen: bool

    ghost predicate Valid()
      reads this, main, floating
    {
      main != floating && main.Valid() && floating.Valid()
    }

    /** The page's initial state: both threads at their greeting, the widget closed. */
    constructor ()
      ensures Valid() && fresh(main) && fresh(floating)
      ensures main.messages == [Message("1", MainGreeting, Bot)] && main.input == "" && main.pending == []
      ensures floating.messages == [Message("float-1", FloatingGreeting, Bot)]
      ensures floating.input == "" && floating.pending == []
      ensures !isFloatingChatOpen
    {
      main := new Conversation.Main();
      floating := new Conversation.Floating();
      isFloatingChatOpen := false;
    }

    /** handleSendMessage: a send on the main panel; the widget is untouched. */
    method SendMessage(id: string) returns (accepted: bool)
      requires Valid()
      modifies main
      ensures Valid()
      ensures main.Submitted(id, accepted) && old(main.messages) <= main.messages
      ensures unchanged(floating)
    {
      accepted := main.Submit(id);
    }

    /** The reply timer of a main-panel send firing; the widget is untouched. */
    method FireMainTimer(id: string) returns (fired: bool)
      requires Valid()
      modifies main
      ensures Valid()
      ensures main.Fired(id, fired) && old(main.messages) <= main.messages
      ensures unchanged(floating)
    {
      fired := main.FireTimer(id);
    }

    /** The widget input's onChange handler; the input exists only while the
        widget is open. The main panel is untouched. */
    method EditFloatingInput(text: string)
      requires Valid() && isFloatingChatOpen
      modifies floating
      ensures Valid()
      ensures floating.input == text
      ensures floating.messages == old(floating.messages) && floating.pending == old(floating.pending)
      ensures unchanged(main)
    {
      floating.SetInput(text);
    }

    /** handleSendFloatingMessage: a send in the widget, whose send button and
        Enter key exist only while it is open; the main panel is untouched. */
    method SendFloatingMessage(id: string) returns (accepted: bool)
      requires Valid() && isFloatingChatOpen
      modifies floating
      ensures Valid()
      ensures floating.Submitted(id, accepted) && old(floating.messages) <= floating.messages
      ensures unchanged(main)
    {
      accepted := floating.Submit(id);
    }

    /** The reply timer of a widget send firing; the main panel is untouched. */
    method FireFloatingTimer(id: string) returns (fired: bool)
      requires Valid()
      modifies floating
      ensures Valid()
      ensures floating.Fired(id, fired) && old(floating.messages) <= floating.messages
      ensures unchanged(main)
    {
      fired := floating.FireTimer(id);
    }

    /** The chat button: opens the widget. */
    method OpenFloatingChat()
      requires Valid()
      modifies this
      ensures Valid() && isFloatingChatOpen
    {
      isFloatingChatOpen := true;
    }

    /** The widget's close button. */
    method CloseFloatingChat()
      requires Valid()
      modifies this
      ensures Valid() && !isFloatingChatOpen
    {
      isFloatingChatOpen := false;
    }
  }

  /** Asking "nồng độ cồn" in the widget: the question is appended at once with
      the buffer cleared, and when the timer fires the alcohol reply follows. */
  method AlcoholQuestionScenario() returns (afterSend: seq<Message>, afterReply: seq<Message>)
    ensures afterSend == [Message("float-1", FloatingGreeting, Bot), Message("q", "nồng độ cồn", User)]
    ensures afterReply == afterSend + [Message("r", AlcoholReply, Bot)]
  {
    var page := new Page();
    page.OpenFloatingChat();
    var question := "nồng độ cồn";
    page.EditFloatingInput(question);
    assert Trim(question) != "" by {
      assert !IsWhitespace(question[0]);
    }
    var accepted := page.SendFloatingMessage("q");
    afterSend := page.floating.messages;
    assert page.floating.input == "";
    AlcoholExample(question);
    var fired := page.FireFloatingTimer("r");
    afterReply := page.floating.messages;
  }

  /** Sending a blank buffer in the widget changes nothing. */
  method BlankSendScenario() returns (accepted: bool, history: seq<Message>, buffer: string)
    ensures !accepted
    ensures history == [Message("float-1", FloatingGreeting, Bot)] && buffer == " \t "
  {
    var page := new Page();
    page.OpenFloatingChat();
    page.EditFloatingInput(" \t ");
    assert IsBlank(" \t ");
    accepted := page.SendFloatingMessage("q");
    history := page.floating.messages;
    buffer := page.floating.input;
  }
}
