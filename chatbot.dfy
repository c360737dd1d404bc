/** The conversation bookkeeping of `VRChatbot`: the history of tagged
    lines, the context sent to the generation service, and the reply chosen
    for each of the service's outcomes. `withSystemPrompt` selects between
    the two variants of the class: `Final2_Chatbot.py` prepends a system
    prompt chosen by language, `final_chatbot.py` does not. */
module Chatbot {
  import opened Strings

  const InvalidPromptReply := "Please enter a valid question."
  const EmptyReplyFallback := "I couldn't process that, please try again!"
  const ErrorPrefix := "An error occurred: "

  const UserTag := "User: "
  const BotTag := "Chatbot: "

  /** How many history entries the context shows (`history[-5:]`). */
  const WindowSize := 5

  const EnglishSystemPrompt := "You are a helpful, calm, and knowledgeable medical assistant working inside a virtual reality (VR) environment. "
    + "You are helping users practice emergency medical scenarios in a realistic and guided way. Always remind them this is a simulation. "
    + "For real-life emergencies, they must contact emergency services or medical professionals."

  const ArabicSystemPrompt := "أنت مساعد طبي هادئ وذو معرفة تعمل داخل بيئة واقع افتراضي. "
    + "أنت تساعد المستخدمين في التدرب على سيناريوهات الطوارئ الطبية بطريقة واقعية وتوجيهية. "
    + "ذكّرهم دائمًا أن هذه مجرد محاكاة. في الحالات الحقيقية، يجب عليهم الاتصال بالطوارئ أو الذهاب إلى طبيب مختص."

  /** What the generation call came back with: a response carrying text
      (possibly empty), a response without text, or an exception whose
      message is `detail`. */
  datatype Outcome = Text(text: string) | NoText | Failure(detail: string)

  /** Whether the generation service was called, and with which context. */
  datatype Request = NoCall | Call(context: string)

  /** The observable effect of one `get_response` call. */
  datatype Exchange = Exchange(reply: string, history: seq<string>, request: Request)

  function UserLine(prompt: string): string { UserTag + prompt }

  function BotLine(reply: string): string { BotTag + reply }

  predicate IsUserLine(s: string) { UserTag <= s }

  predicate IsBotLine(s: string) { BotTag <= s }

  /** The history invariant: every entry is a tagged user line, or a tagged
      chatbot line that answers the user line right before it. */
  predicate WellFormed(h: seq<string>) {
    h == [] ||
    (WellFormed(h[..|h| - 1]) &&
     (IsUserLine(h[|h| - 1]) || (IsBotLine(h[|h| - 1]) && 2 <= |h| && IsUserLine(h[|h| - 2]))))
  }

  /** Python's `history[-5:]`: the last five entries, or all of them. */
  function Window(h: seq<string>): (w: seq<string>)
    ensures |w| == if |h| < WindowSize then |h| else WindowSize
    ensures w == h[|h| - |w|..]
  {
    if |h| <= WindowSize then h else h[|h| - WindowSize..]
  }

  /** The entries joined into the context: the window of the history (which
      already holds the new user line) followed by the user line again. */
  function ContextLines(h: seq<string>, prompt: string): seq<string> {
    Window(h) + [UserLine(prompt)]
  }

  /** The system prompt: Arabic for `lang == "ar"`, English otherwise. */
  function SystemPrompt(lang: string): string {
    if lang == "ar" then ArabicSystemPrompt else EnglishSystemPrompt
  }

  /** The text handed to the generation service, built from the history `h`
      after the user line was appended. */
  function Context(h: seq<string>, prompt: string, lang: string, withSystemPrompt: bool): string {
    var body := Join('\n', ContextLines(h, prompt));
    if withSystemPrompt then SystemPrompt(lang) + "\n" + body else body
  }

  /** One call of `get_response` on history `h`, with the generation service
      answering `outcome`. */
  function Respond(h: seq<string>, prompt: string, lang: string, withSystemPrompt: bool, outcome: Outcome): Exchange {
    if Strip(prompt) == [] then
      Exchange(InvalidPromptReply, h, NoCall)
    else
      var h' := h + [UserLine(prompt)];
      var call := Call(Context(h', prompt, lang, withSystemPrompt));
      match outcome
      case Text(text) =>
        if text == [] then Exchange(EmptyReplyFallback, h', call)
        else
          var reply := Strip(text);
          Exchange(reply, h' + [BotLine(reply)], call)
      case NoText => Exchange(EmptyReplyFallback, h', call)
      case Failure(detail) => Exchange(ErrorPrefix + detail, h', call)
  }

  /** The chatbot object: its configuration and its growing history. */
  class VRChatbot {
    const modelName: string
    const withSystemPrompt: bool
    var history: seq<string>

    /** The history invariant: every entry is a user line, or a chatbot line
        right after a user line. */
    ghost predicate Valid()
      reads this
    {
      WellFormed(history)
    }

    /** A new chatbot starts with an empty history. */
    constructor (modelName: string, withSystemPrompt: bool)
      ensures this.modelName == modelName && this.withSystemPrompt == withSystemPrompt
      ensures history == [] && Valid()
    {
      this.modelName := modelName;
      this.withSystemPrompt := withSystemPrompt;
      history := [];
    }

    /** Answers `prompt`, given what the generation service returns for the
        context; `request` records whether it was called and with what. */
    method GetResponse(prompt: string, lang: string, outcome: Outcome) returns (reply: string, ghost request: Request)
      requires Valid()
      modifies this
      ensures Exchange(reply, history, request)
        == Respond(old(history), prompt, lang, withSystemPrompt, outcome)
      ensures Valid()
    {
      ghost var before := history;
      if Strip(prompt) == [] {
        return InvalidPromptReply, NoCall;
      }
      history := history + [UserLine(prompt)];
      request := Call(Context(history, prompt, lang, withSystemPrompt));
      match outcome {
        case Text(text) =>
          if text != [] {
            reply := Strip(text);
            history := history + [BotLine(reply)];
          } else {
            reply := EmptyReplyFallback;
          }
        case NoText =>
          reply := EmptyReplyFallback;
        case Failure(detail) =>
          reply := ErrorPrefix + detail;
      }
      RespondKeepsWellFormed(before, prompt, lang, withSystemPrompt, outcome);
    }
  }

  /** A user line may follow any well-formed history. */
  lemma UserLineKeepsWellFormed(h: seq<string>, prompt: string)
    requires WellFormed(h)
    ensures WellFormed(h + [UserLine(prompt)])
  {
    assert (h + [UserLine(prompt)])[..|h|] == h;
    assert (UserTag + prompt)[..|UserTag|] == UserTag;
  }

  /** A chatbot line may follow a user line. */
  lemma BotLineKeepsWellFormed(h: seq<string>, prompt: string, reply: string)
    requires WellFormed(h + [UserLine(prompt)])
    ensures WellFormed(h + [UserLine(prompt)] + [BotLine(reply)])
  {
    var h' := h + [UserLine(prompt)];
    assert (h' + [BotLine(reply)])[..|h'|] == h';
    assert (BotTag + reply)[..|BotTag|] == BotTag;
    assert (UserTag + prompt)[..|UserTag|] == UserTag;
  }

  /** Every call keeps the history invariant. */
  lemma RespondKeepsWellFormed(h: seq<string>, prompt: string, lang: string, withSystemPrompt: bool, outcome: Outcome)
    requires WellFormed(h)
    ensures WellFormed(Respond(h, prompt, lang, withSystemPrompt, outcome).history)
  {
    var e := Respond(h, prompt, lang, withSystemPrompt, outcome);
    if Strip(prompt) != [] {
      var h' := h + [UserLine(prompt)];
      UserLineKeepsWellFormed(h, prompt);
      if outcome.Text? && outcome.text != [] {
        BotLineKeepsWellFormed(h, prompt, Strip(outcome.text));
        assert e.history == h' + [BotLine(Strip(outcome.text))];
      } else {
        assert e.history == h';
      }
    } else {
      assert e.history == h;
    }
  }

  /** A blank prompt (empty or whitespace only) is exactly the call that is
      rejected with the fixed message, leaves the history alone and does not
      reach the generation service. */
  lemma BlankPromptRejected(h: seq<string>, prompt: string, lang: string, withSystemPrompt: bool, outcome: Outcome)
    ensures IsBlank(prompt)
      <==> Respond(h, prompt, lang, withSystemPrompt, outcome) == Exchange(InvalidPromptReply, h, NoCall)
  {
    if !IsBlank(prompt) {
      assert |Respond(h, prompt, lang, withSystemPrompt, outcome).history| > |h|;
    }
  }

  /** The history is append-only: every call keeps the old entries as a
      prefix and adds at most two; a non-blank prompt always adds its user
      line first, whatever the service does, and the service is called. */
  lemma HistoryIsAppendOnly(h: seq<string>, prompt: string, lang: string, withSystemPrompt: bool, outcome: Outcome)
    ensures var e := Respond(h, prompt, lang, withSystemPrompt, outcome);
      h <= e.history && |e.history| <= |h| + 2
      && (!IsBlank(prompt) ==> |h| < |e.history| && e.history[|h|] == UserLine(prompt) && e.request.Call?)
  {
  }

  /** A chatbot line is added exactly when the prompt is not blank and the
      service returned non-empty text. */
  lemma ChatbotLineOnlyForText(h: seq<string>, prompt: string, lang: string, withSystemPrompt: bool, outcome: Outcome)
    ensures |Respond(h, prompt, lang, withSystemPrompt, outcome).history| == |h| + 2
      <==> !IsBlank(prompt) && outcome.Text? && outcome.text != []
  {
  }

  /** Non-empty text: the reply is the stripped text, and the history gains
      the user line and the chatbot line carrying that reply. */
  lemma TextReplyRecorded(h: seq<string>, prompt: string, lang: string, withSystemPrompt: bool, text: string)
    requires !IsBlank(prompt) && text != []
    ensures var e := Respond(h, prompt, lang, withSystemPrompt, Text(text));
      e.reply == Strip(text) && IsTrimmed(e.reply)
      && e.history == h + [UserTag + prompt, BotTag + Strip(text)]
  {
  }

  /** Text made only of whitespace is still "text" to the source's truth
      test: the reply is empty and the history records an empty chatbot line. */
  lemma BlankTextGivesEmptyReply(h: seq<string>, prompt: string, lang: string, withSystemPrompt: bool, text: string)
    requires !IsBlank(prompt) && text != [] && IsBlank(text)
    ensures var e := Respond(h, prompt, lang, withSystemPrompt, Text(text));
      e.reply == "" && e.history == h + [UserTag + prompt, "Chatbot: "]
  {
    assert BotTag + "" == "Chatbot: ";
  }

  /** Missing or empty text: the fixed fallback, and only the user line is
      kept. */
  lemma MissingTextFallback(h: seq<string>, prompt: string, lang: string, withSystemPrompt: bool, outcome: Outcome)
    requires !IsBlank(prompt) && (outcome == NoText || outcome == Text(""))
    ensures var e := Respond(h, prompt, lang, withSystemPrompt, outcome);
      e.reply == "I couldn't process that, please try again!"
      && e.history == h + [UserTag + prompt]
  {
  }

  /** A failing call is reported as a reply, not raised, and the user line
      is not rolled back. */
  lemma FailureReported(h: seq<string>, prompt: string, lang: string, withSystemPrompt: bool, detail: string)
    requires !IsBlank(prompt)
    ensures var e := Respond(h, prompt, lang, withSystemPrompt, Failure(detail));
      e.reply == "An error occurred: " + detail
      && e.history == h + [UserTag + prompt]
  {
  }

  /** The Arabic system prompt is chosen exactly for `lang == "ar"`; every
      other value selects the English one. */
  lemma SystemPromptSelection(lang: string)
    ensures SystemPrompt(lang) == ArabicSystemPrompt <==> lang == "ar"
    ensures SystemPrompt(lang) == EnglishSystemPrompt <==> lang != "ar"
  {
    assert |ArabicSystemPrompt| != |EnglishSystemPrompt|;
  }

  /** For a non-blank prompt the service is called with the context built
      from the history that already holds the user line. */
  lemma RespondCalls(h: seq<string>, prompt: string, lang: string, withSystemPrompt: bool, outcome: Outcome)
    requires !IsBlank(prompt)
    ensures Respond(h, prompt, lang, withSystemPrompt, outcome).request
      == Call(Context(h + [UserLine(prompt)], prompt, lang, withSystemPrompt))
  {
  }

  /** With the system prompt enabled, the context for a non-blank prompt
      starts with the system prompt selected by `lang`. */
  lemma SystemPromptLeadsContext(h: seq<string>, prompt: string, lang: string, outcome: Outcome)
    requires !IsBlank(prompt)
    ensures var r := Respond(h, prompt, lang, true, outcome).request;
      r.Call? && SystemPrompt(lang) <= r.context
  {
    RespondCalls(h, prompt, lang, true, outcome);
    var body := Join('\n', ContextLines(h + [UserLine(prompt)], prompt));
    PrefixOfConcat(SystemPrompt(lang), "\n", body);
  }

  /** The entries of the context for a non-blank prompt: at most the last
      four entries of the history before the call, then the prompt's user
      line twice (once from the window, once appended again). */
  lemma ContextLinesShape(h: seq<string>, prompt: string)
    ensures var k := if |h| < WindowSize - 1 then |h| else WindowSize - 1;
      ContextLines(h + [UserLine(prompt)], prompt) == h[|h| - k..] + [UserLine(prompt), UserLine(prompt)]
  {
    var h' := h + [UserLine(prompt)];
    var k := if |h| < WindowSize - 1 then |h| else WindowSize - 1;
    assert h'[|h'| - (k + 1)..] == h[|h| - k..] + [UserLine(prompt)];
  }

  /** `Final2_Chatbot.py`: the service receives the selected system prompt,
      a newline, then at most six newline-joined entries in chronological
      order: at most the four latest stored entries and the user line twice. */
  lemma RequestWithSystemPrompt(h: seq<string>, prompt: string, lang: string, outcome: Outcome)
    requires !IsBlank(prompt)
    ensures var k := if |h| < 4 then |h| else 4;
      var lines := h[|h| - k..] + [UserTag + prompt, UserTag + prompt];
      Respond(h, prompt, lang, true, outcome).request
        == Call(SystemPrompt(lang) + "\n" + Join('\n', lines))
      && Respond(h, prompt, lang, true, outcome).request
        == Call(Join('\n', [SystemPrompt(lang)] + lines))
  {
    var k := if |h| < 4 then |h| else 4;
    var lines := h[|h| - k..] + [UserLine(prompt), UserLine(prompt)];
    RespondCalls(h, prompt, lang, true, outcome);
    ContextLinesShape(h, prompt);
    assert ([SystemPrompt(lang)] + lines)[1..] == lines;
  }

  /** `final_chatbot.py`: the service receives only the newline-joined
      entries, at most the four latest stored ones and the user line twice. */
  lemma RequestWithoutSystemPrompt(h: seq<string>, prompt: string, lang: string, outcome: Outcome)
    requires !IsBlank(prompt)
    ensures var k := if |h| < 4 then |h| else 4;
      Respond(h, prompt, lang, false, outcome).request
        == Call(Join('\n', h[|h| - k..] + [UserTag + prompt, UserTag + prompt]))
  {
    RespondCalls(h, prompt, lang, false, outcome);
    ContextLinesShape(h, prompt);
  }

  /** The context built after appending the user line ends with that line,
      a newline, and the same line again. */
  lemma ContextEndsWithUserLineTwice(h: seq<string>, prompt: string, lang: string, withSystemPrompt: bool)
    ensures EndsWith(Context(h + [UserLine(prompt)], prompt, lang, withSystemPrompt),
                     UserLine(prompt) + "\n" + UserLine(prompt))
  {
    var u := UserLine(prompt);
    ContextLinesShape(h, prompt);
    var k := if |h| < WindowSize - 1 then |h| else WindowSize - 1;
    var older := h[|h| - k..];
    JoinLastTwo('\n', older, u, u);
    var mid := if older == [] then "" else Join('\n', older) + "\n";
    var tail := u + "\n" + u;
    var body := Join('\n', ContextLines(h + [u], prompt));
    assert body == mid + tail;
    var pre := if withSystemPrompt then SystemPrompt(lang) + "\n" else "";
    EndsWithConcat(pre, mid, tail);
    if withSystemPrompt {
      assert Context(h + [u], prompt, lang, withSystemPrompt) == pre + (mid + tail);
    } else {
      assert pre + (mid + tail) == mid + tail;
    }
  }

  /** Whatever the configuration, the context sent for a non-blank prompt
      ends with the prompt's user line, a newline, and the same line again. */
  lemma ContextEndsWithPromptTwice(h: seq<string>, prompt: string, lang: string, withSystemPrompt: bool, outcome: Outcome)
    requires !IsBlank(prompt)
    ensures var r := Respond(h, prompt, lang, withSystemPrompt, outcome).request;
      r.Call? && EndsWith(r.context, UserLine(prompt) + "\n" + UserLine(prompt))
  {
    RespondCalls(h, prompt, lang, withSystemPrompt, outcome);
    ContextEndsWithUserLineTwice(h, prompt, lang, withSystemPrompt);
  }

  /** One user turn of a session: what was typed and what the service did. */
  datatype Turn = Turn(prompt: string, lang: string, outcome: Outcome)

  /** The history after a sequence of turns, starting from `h`. */
  function Replay(h: seq<string>, withSystemPrompt: bool, turns: seq<Turn>): seq<string>
    decreases |turns|
  {
    if turns == [] then h
    else
      var last := turns[|turns| - 1];
      Respond(Replay(h, withSystemPrompt, turns[..|turns| - 1]), last.prompt, last.lang, withSystemPrompt, last.outcome).history
  }

  /** A turn that is answered: a non-blank prompt and non-empty text. */
  predicate Answered(t: Turn) {
    !IsBlank(t.prompt) && t.outcome.Text? && t.outcome.text != []
  }

  /** After N answered turns from an empty history, the history holds 2N
      entries alternating user line and chatbot line, turn by turn. */
  lemma {:induction false} AnsweredTurnsAlternate(withSystemPrompt: bool, turns: seq<Turn>)
    requires forall i :: 0 <= i < |turns| ==> Answered(turns[i])
    ensures var h := Replay([], withSystemPrompt, turns);
      |h| == 2 * |turns|
      && forall i :: 0 <= i < |turns| ==>
           Answered(turns[i])
           && h[2 * i] == UserTag + turns[i].prompt
           && h[2 * i + 1] == BotTag + Strip(turns[i].outcome.text)
    decreases |turns|
  {
    if turns != [] {
      var init := turns[..|turns| - 1];
      var last := turns[|turns| - 1];
      AnsweredTurnsAlternate(withSystemPrompt, init);
      var h0 := Replay([], withSystemPrompt, init);
      TextReplyRecorded(h0, last.prompt, last.lang, withSystemPrompt, last.outcome.text);
      var h := Replay([], withSystemPrompt, turns);
      assert h == h0 + [UserLine(last.prompt), BotLine(Strip(last.outcome.text))];
      forall i | 0 <= i < |turns|
        ensures Answered(turns[i])
        ensures h[2 * i] == UserTag + turns[i].prompt
        ensures h[2 * i + 1] == BotTag + Strip(turns[i].outcome.text)
      {
        if i < |init| {
          assert turns[i] == init[i];
          assert h[2 * i] == h0[2 * i] && h[2 * i + 1] == h0[2 * i + 1];
        } else {
          assert 2 * i == |h0|;
        }
      }
    }
  }
}
