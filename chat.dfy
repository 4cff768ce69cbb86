/**
 * `sendMessage` of src/features/chat/service/chat.service.ts: a conversation
 * document records the user's message, takes its title from the first
 * message, builds the agent's prompt from the last six messages, and records
 * the agent's reply together with the sources cited in it.
 *
 * The document is a `Conversation` whose `title` and `messages` change in
 * place; `savedTitle` and `savedMessages` are what `chat.save()` last wrote.
 * The agent is a parameter: a function from the prompt to its outcome.
 */
module ChatService {
  import opened Wrappers
  import opened Text
  import opened ChatSources

  datatype Role = User | Assistant

  /** A `ChatMessage`; user messages carry no `sources`. */
  datatype ChatMessage = ChatMessage(role: Role, content: string, sources: Option<seq<MessageSource>>)

  /** The errors `sendMessage` throws: `AppError.notFound(message)` and `new AppError(message, status)`. */
  datatype AppError = NotFound(message: string) | Failure(message: string, statusCode: nat)

  /** What `run(islamicAssistantAgent, prompt)` does: it settles with a `finalOutput`, or it throws. */
  datatype AgentOutcome = Finished(finalOutput: Option<string>) | Threw

  /** How many characters of the first message the title keeps. */
  const TitleLength := 50

  /** How many recent messages the context holds. */
  const ContextSize := 6

  /** `message.substring(0, 50) + (message.length > 50 ? '...' : '')`. */
  function Title(message: string): (t: string)
    ensures |t| <= TitleLength + 3
    ensures |message| <= TitleLength ==> t == message
    ensures |message| > TitleLength ==> |t| == TitleLength + 3 && t[..TitleLength] == message[..TitleLength] && t[TitleLength..] == "..."
  {
    if |message| > TitleLength then message[..TitleLength] + "..." else message
  }

  /** `messages.slice(-6)`: the last six messages, in order, or all of them when there are fewer. */
  function RecentMessages(messages: seq<ChatMessage>): (r: seq<ChatMessage>)
    ensures |r| == if |messages| < ContextSize then |messages| else ContextSize
    ensures messages == messages[..|messages| - |r|] + r
  {
    if |messages| <= ContextSize then messages else messages[|messages| - ContextSize..]
  }

  function RoleLabel(role: Role): string {
    if role == User then "User" else "Assistant"
  }

  /** One message in the context: `User: ...` or `Assistant: ...`. */
  function ContextLine(m: ChatMessage): string {
    RoleLabel(m.role) + ": " + m.content
  }

  function ContextLines(messages: seq<ChatMessage>): (lines: seq<string>)
    ensures |lines| == |messages|
    ensures forall i :: 0 <= i < |messages| ==> lines[i] == ContextLine(messages[i])
  {
    seq(|messages|, i requires 0 <= i < |messages| => ContextLine(messages[i]))
  }

  /** The recent messages, one line each, separated by a blank line. */
  function Context(messages: seq<ChatMessage>): string {
    Join(ContextLines(RecentMessages(messages)), "\n\n")
  }

  /** The prompt handed to the agent. */
  function Prompt(messages: seq<ChatMessage>, message: string): string {
    Context(messages) + "\n\nUser: " + message + "\n\nAssistant:"
  }

  /** `result.finalOutput || ''`. */
  function ResponseText(finalOutput: Option<string>): (r: string)
    ensures finalOutput.Some? ==> r == finalOutput.value
    ensures finalOutput.None? ==> r == ""
  {
    if finalOutput.Some? then finalOutput.value else ""
  }

  /** The saved history of a conversation: user and assistant messages in turns. */
  predicate Alternating(messages: seq<ChatMessage>) {
    |messages| % 2 == 0 &&
    forall i :: 0 <= i < |messages| ==> messages[i].role == (if i % 2 == 0 then User else Assistant)
  }

  /** No assistant message cites the same reference twice. */
  predicate DistinctSources(messages: seq<ChatMessage>) {
    forall i :: 0 <= i < |messages| && messages[i].sources.Some? ==> DistinctReferences(messages[i].sources.value)
  }

  /** Mongoose's `required` on a string: the empty string fails it. */
  predicate Required(s: string) {
    |s| > 0
  }

  /** `MessageSourceSchema`: `reference` and `text` are required strings. */
  predicate SourceStorable(x: MessageSource) {
    Required(x.reference) && Required(x.text)
  }

  /** `ChatMessageSchema`: `content` is required, and so is every part of every source. */
  predicate MessageStorable(m: ChatMessage) {
    Required(m.content) &&
    (m.sources.Some? ==> forall j :: 0 <= j < |m.sources.value| ==> SourceStorable(m.sources.value[j]))
  }

  /** What `chat.save()` validates: a title that is not blank once trimmed, and every message. */
  predicate Storable(title: string, messages: seq<ChatMessage>) {
    (exists j :: 0 <= j < |title| && !IsJsWhitespace(title[j])) &&
    forall i :: 0 <= i < |messages| ==> MessageStorable(messages[i])
  }

  class Conversation {
    var title: string
    var messages: seq<ChatMessage>
    var savedTitle: string
    var savedMessages: seq<ChatMessage>

    /** A conversation as `ChatModel.findOne` loads it: the document and its stored copy agree. */
    constructor (title: string, messages: seq<ChatMessage>)
      ensures this.title == title && this.messages == messages
      ensures savedTitle == title && savedMessages == messages
    {
      this.title := title;
      this.messages := messages;
      savedTitle := title;
      savedMessages := messages;
    }

    /** `chat.save()`: the document is written when it passes the schema's validation, and rejected otherwise. */
    method Save() returns (saved: bool)
      modifies this
      ensures saved <==> Storable(title, messages)
      ensures saved ==> savedTitle == title && savedMessages == messages
      ensures !saved ==> savedTitle == old(savedTitle) && savedMessages == old(savedMessages)
      ensures title == old(title) && messages == old(messages)
    {
      saved := Storable(title, messages);
      if saved {
        savedTitle := title;
        savedMessages := messages;
      }
    }
  }

  /**
   * `sendMessage`. `chat` is what `findOne` returned for the conversation and the
   * user; `agent` stands for the agent run. A rejected save ends in the same
   * error as a failed agent run. Lemma `ReplyStorable` says when the save is
   * accepted, and `SavedHistoryInTurns` that what a successful call saves keeps
   * the history in turns.
   */
  method SendMessage(chat: Conversation?, message: string, agent: string -> AgentOutcome)
    returns (r: Result<ChatMessage, AppError>)
    modifies chat
    ensures chat == null ==> r == Err(NotFound("Conversation not found"))
    ensures chat != null ==>
      chat.title == (if |old(chat.messages)| == 0 then Title(message) else old(chat.title))
    ensures chat != null ==>
      var sent := old(chat.messages) + [ChatMessage(User, message, None)];
      match agent(Prompt(sent, message))
      case Threw =>
        r == Err(Failure("Failed to generate response", 500)) &&
        chat.messages == sent &&
        chat.savedTitle == old(chat.savedTitle) && chat.savedMessages == old(chat.savedMessages)
      case Finished(output) =>
        var response := ResponseText(output);
        var reply := ChatMessage(Assistant, response, Some(ExtractedSources(response)));
        chat.messages == sent + [reply] &&
        if Storable(chat.title, sent + [reply]) then
          r == Ok(reply) && chat.savedTitle == chat.title && chat.savedMessages == chat.messages
        else
          r == Err(Failure("Failed to generate response", 500)) &&
          chat.savedTitle == old(chat.savedTitle) && chat.savedMessages == old(chat.savedMessages)
  {
    if chat == null {
      return Err(NotFound("Conversation not found"));
    }
    var userMessage := ChatMessage(User, message, None);
    chat.messages := chat.messages + [userMessage];
    if |chat.messages| == 1 {
      chat.title := Title(message);
    }
    var prompt := Prompt(chat.messages, message);
    match agent(prompt)
    case Threw =>
      r := Err(Failure("Failed to generate response", 500));
    case Finished(output) =>
      var assistantResponse := ResponseText(output);
      var sources := ExtractSources(assistantResponse);
      var assistantMessage := ChatMessage(Assistant, assistantResponse, Some(sources));
      chat.messages := chat.messages + [assistantMessage];
      var saved := chat.Save();
      if saved {
        r := Ok(assistantMessage);
      } else {
        r := Err(Failure("Failed to generate response", 500));
      }
  }

  // ------------------------------------------------------------------ laws

  /** The window slides: a new message joins the end and, once six are held, the oldest leaves. */
  lemma RecentMessagesSlide(messages: seq<ChatMessage>, m: ChatMessage)
    ensures RecentMessages(messages + [m]) ==
      (if |messages| < ContextSize then messages else RecentMessages(messages)[1..]) + [m]
  {
    var r := RecentMessages(messages + [m]);
    if |messages| >= ContextSize {
      var n := |messages|;
      assert r == (messages + [m])[n + 1 - ContextSize..];
      assert RecentMessages(messages)[1..] == messages[n + 1 - ContextSize..];
      assert (messages + [m])[n + 1 - ContextSize..] == messages[n + 1 - ContextSize..] + [m];
    }
  }

  /** The message just added always ends the context, so the prompt, which appends it once more, holds it twice. */
  lemma ContextEndsWithMessage(history: seq<ChatMessage>, message: string)
    ensures EndsWith(Context(history + [ChatMessage(User, message, None)]), "User: " + message)
  {
    var u := ChatMessage(User, message, None);
    assert "User" + ": " == "User: ";
    assert ContextLine(u) == "User: " + message;
    var messages := history + [u];
    assert messages[|messages| - 1] == u;
    ContextEndsWithLast(messages);
  }

  /** The context ends with the line of the newest message. */
  lemma ContextEndsWithLast(messages: seq<ChatMessage>)
    requires |messages| > 0
    ensures EndsWith(Context(messages), ContextLine(messages[|messages| - 1]))
  {
    var recent := RecentMessages(messages);
    RecentEndsWithLast(messages);
    var lines := ContextLines(recent);
    assert lines[|lines| - 1] == ContextLine(messages[|messages| - 1]);
    JoinEndsWithLast(lines, "\n\n");
  }

  /** The newest message is the last of the recent ones. */
  lemma RecentEndsWithLast(messages: seq<ChatMessage>)
    requires |messages| > 0
    ensures |RecentMessages(messages)| > 0
    ensures RecentMessages(messages)[|RecentMessages(messages)| - 1] == messages[|messages| - 1]
  {
    var r := RecentMessages(messages);
    assert messages[|messages| - 1] == (messages[..|messages| - |r|] + r)[|messages| - 1];
  }

  /**
   * What a successful `sendMessage` saves keeps the history in turns: the saved
   * messages (see `SendMessage`) are the old ones, the user's message and the
   * reply with the sources extracted from it, and no reply cites a reference twice.
   */
  lemma SavedHistoryInTurns(saved: seq<ChatMessage>, message: string, response: string)
    requires Alternating(saved) && DistinctSources(saved)
    ensures var next := saved + [ChatMessage(User, message, None)] + [ChatMessage(Assistant, response, Some(ExtractedSources(response)))];
      Alternating(next) && DistinctSources(next)
  {
    ExtractedSourcesSound(response);
    ExchangeInTurns(saved, ChatMessage(User, message, None), ChatMessage(Assistant, response, Some(ExtractedSources(response))));
  }

  /** A question and a reply without a repeated reference, appended to a history in turns, keep it in turns. */
  lemma ExchangeInTurns(saved: seq<ChatMessage>, question: ChatMessage, reply: ChatMessage)
    requires Alternating(saved) && DistinctSources(saved)
    requires question.role == User && question.sources.None?
    requires reply.role == Assistant && reply.sources.Some? && DistinctReferences(reply.sources.value)
    ensures Alternating(saved + [question] + [reply])
    ensures DistinctSources(saved + [question] + [reply])
  {
    var next := saved + [question] + [reply];
    forall i | 0 <= i < |next| ensures next[i].role == (if i % 2 == 0 then User else Assistant) {
      if i < |saved| {
        assert next[i] == saved[i];
      }
    }
    forall i | 0 <= i < |next| && next[i].sources.Some? ensures DistinctReferences(next[i].sources.value) {
      if i < |saved| {
        assert next[i] == saved[i];
      }
    }
  }

  /** Every source `extractSources` builds has an empty `text`. */
  lemma ExtractedSourcesHaveNoText(response: string)
    ensures forall j :: 0 <= j < |ExtractedSources(response)| ==> ExtractedSources(response)[j].text == ""
  {
    ExtractedSourcesSound(response);
    SeenSourcesCited(response);
    forall j | 0 <= j < |ExtractedSources(response)| ensures ExtractedSources(response)[j].text == "" {
      var x := ExtractedSources(response)[j];
      assert x in SeenSources(response);
      var c :| ReferenceShaped(c) && SourceOf(c) == x;
    }
  }

  /**
   * The save after a reply is accepted exactly when the document was storable
   * before the reply, the reply is not empty, and it cites no source: every
   * extracted source has an empty `text`, which the schema rejects.
   */
  lemma ReplyStorable(title: string, sent: seq<ChatMessage>, response: string)
    ensures Storable(title, sent + [ChatMessage(Assistant, response, Some(ExtractedSources(response)))]) <==>
      Storable(title, sent) && response != "" && ExtractedSources(response) == []
  {
    var reply := ChatMessage(Assistant, response, Some(ExtractedSources(response)));
    var next := sent + [reply];
    ExtractedSourcesHaveNoText(response);
    if ExtractedSources(response) != [] {
      assert !SourceStorable(ExtractedSources(response)[0]);
      assert !MessageStorable(next[|sent|]);
    }
    if Storable(title, next) {
      forall i | 0 <= i < |sent| ensures MessageStorable(sent[i]) {
        assert next[i] == sent[i];
      }
      assert MessageStorable(next[|sent|]);
    }
    if Storable(title, sent) && response != "" && ExtractedSources(response) == [] {
      forall i | 0 <= i < |next| ensures MessageStorable(next[i]) {
        if i < |sent| {
          assert next[i] == sent[i];
        }
      }
    }
  }

  /** A reply that cites the Quran is never saved: `sendMessage` ends in the 500 error for it. */
  lemma QuranCitingReplyRejected(title: string, sent: seq<ChatMessage>, response: string, i: nat, n: Numbers)
    requires i <= |response| && MatchesAt(response, i, "Quran") && NumbersShaped(n) && OccursAt(response, i + 5, NumbersText(n))
    ensures !Storable(title, sent + [ChatMessage(Assistant, response, Some(ExtractedSources(response)))])
  {
    QuranCitationExtracted(response, i, n);
    ReplyStorable(title, sent, response);
  }
}
