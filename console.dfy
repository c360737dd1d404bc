/** The two tests `start_chat` applies to every line typed (the exit command
    and the language guess), and one turn of its loop as a value: either the
    farewell, or the line handed to the chatbot with the guessed language. */
module Console {
  import opened Strings
  import Chatbot

  /** The 31 letters whose presence makes a line Arabic. */
  const ArabicLetters := "اأإآبتثجحخدذرزسشصضطظعغفقكلمنهوي"

  /** The commands that end the session, compared after lowercasing. */
  const ExitWords: seq<string> := ["exit", "quit", "خروج"]

  const Farewell := "Chatbot: Goodbye!"

  /** Python's `any(char in ArabicLetters for char in s)`. */
  function HasArabicLetter(s: string): (b: bool)
    ensures b <==> exists i :: 0 <= i < |s| && s[i] in ArabicLetters
  {
    if s == [] then false
    else if s[0] in ArabicLetters then true
    else
      var rest := HasArabicLetter(s[1..]);
      assert forall i :: 1 <= i < |s| ==> s[i] == s[1..][i - 1];
      rest
  }

  /** The language guess: `"ar"` when some character is one of the listed
      Arabic letters, `"en"` for everything else. */
  function Classify(s: string): (lang: string)
    ensures lang == "ar" || lang == "en"
    ensures lang == "ar" <==> exists i :: 0 <= i < |s| && s[i] in ArabicLetters
  {
    if HasArabicLetter(s) then "ar" else "en"
  }

  /** `s.lower() in ["exit", "quit", "خروج"]`. */
  predicate IsExitCommand(s: string) {
    Lower(s) in ExitWords
  }

  /** What the loop does with one line it read. */
  datatype Command = Quit | Ask(prompt: string, lang: string)

  /** The line is stripped, tested for an exit command, and otherwise
      classified. */
  function Dispatch(line: string): Command {
    var input := Strip(line);
    if IsExitCommand(input) then Quit else Ask(input, Classify(input))
  }

  /** One turn of the loop: the text printed and, unless the session ends,
      the chatbot's exchange. */
  datatype Step = Stop(printed: string) | Continue(printed: string, exchange: Chatbot.Exchange)

  /** One turn of `start_chat` on a chatbot whose history is `h`, given the
      line typed and what the generation service would return. */
  function ChatTurn(h: seq<string>, withSystemPrompt: bool, line: string, outcome: Chatbot.Outcome): Step {
    match Dispatch(line)
    case Quit => Stop(Farewell)
    case Ask(prompt, lang) =>
      var e := Chatbot.Respond(h, prompt, lang, withSystemPrompt, outcome);
      Continue("Chatbot: " + e.reply, e)
  }

  /** The listed letters lie between alef with madda and yeh. */
  lemma ArabicLettersInRange(c: char)
    requires c in ArabicLetters
    ensures 'آ' <= c <= 'ي'
  {
  }

  /** A line without any character from alef with madda to yeh (Latin text,
      digits, punctuation) is classified English. */
  lemma OutsideArabicRangeIsEnglish(s: string)
    requires forall i :: 0 <= i < |s| ==> s[i] < 'آ' || 'ي' < s[i]
    ensures Classify(s) == "en"
  {
    if Classify(s) == "ar" {
      var i :| 0 <= i < |s| && s[i] in ArabicLetters;
      ArabicLettersInRange(s[i]);
      assert false;
    }
  }

  /** Mixed text is Arabic as soon as either part is. */
  lemma ClassifyConcat(a: string, b: string)
    ensures Classify(a + b) == "ar" <==> Classify(a) == "ar" || Classify(b) == "ar"
  {
    if Classify(a + b) == "ar" {
      var i :| 0 <= i < |a + b| && (a + b)[i] in ArabicLetters;
      if i >= |a| { assert (a + b)[i] == b[i - |a|]; }
    }
    if Classify(b) == "ar" {
      var i :| 0 <= i < |b| && b[i] in ArabicLetters;
      assert (a + b)[|a| + i] == b[i];
    }
    if Classify(a) == "ar" {
      var i :| 0 <= i < |a| && a[i] in ArabicLetters;
      assert (a + b)[i] == a[i];
    }
  }

  /** Sample lines, and a letter outside the set. */
  lemma ClassifyExamples()
    ensures Classify("hello") == "en"
    ensures Classify("مرحبا") == "ar"
    ensures Classify("hi مرحبا") == "ar"
    ensures Classify("ة") == "en"
  {
    assert "مرحبا"[0] in ArabicLetters;
    assert "hi مرحبا"[3] in ArabicLetters;
    OutsideArabicRangeIsEnglish("hello");
    assert 'ة' !in ArabicLetters;
  }

  /** No listed letter is whitespace. */
  lemma ArabicLetterIsNotSpace(c: char)
    requires c in ArabicLetters
    ensures !IsSpace(c)
  {
    ArabicLettersInRange(c);
  }

  /** A slice holds a listed letter exactly when the whole string holds one
      inside the slice's bounds. */
  lemma HasArabicLetterInSlice(s: string, k: nat, j: nat)
    requires k <= j <= |s|
    ensures HasArabicLetter(s[k..j]) <==> exists i :: k <= i < j && s[i] in ArabicLetters
  {
    var r := s[k..j];
    if HasArabicLetter(r) {
      var i :| 0 <= i < |r| && r[i] in ArabicLetters;
      assert s[k + i] == r[i];
    }
    if exists i :: k <= i < j && s[i] in ArabicLetters {
      var i :| k <= i < j && s[i] in ArabicLetters;
      assert r[i - k] == s[i];
    }
  }

  /** No listed letter is whitespace, so stripping a line does not change
      its language. */
  lemma ClassifyIgnoresSurroundingSpace(s: string)
    ensures Classify(Strip(s)) == Classify(s)
  {
    StripIsSlice(s);
    var k := SkipSpaces(s, 0);
    var j := SkipSpacesBack(s, k, |s|);
    HasArabicLetterInSlice(s, k, j);
    if HasArabicLetter(s) {
      var i :| 0 <= i < |s| && s[i] in ArabicLetters;
      ArabicLetterIsNotSpace(s[i]);
      assert k <= i < j;
    }
    assert HasArabicLetter(Strip(s)) == HasArabicLetter(s);
  }

  /** The exit test ignores ASCII case. */
  lemma ExitCommandIgnoresCase(s: string)
    ensures IsExitCommand(s) <==> IsExitCommand(Lower(s))
  {
    LowerIdempotent(s);
  }

  /** Every exit command is four characters long, and mixed-case spellings
      are recognised while anything longer is not. */
  lemma ExitCommandExamples(s: string)
    ensures IsExitCommand(s) ==> |s| == 4
    ensures IsExitCommand("EXIT") && IsExitCommand("Quit") && IsExitCommand("eXiT")
    ensures IsExitCommand("خروج")
    ensures !IsExitCommand("exit ") && !IsExitCommand("exit!")
  {
    assert Lower("EXIT") == "exit";
    assert Lower("Quit") == "quit";
    assert Lower("eXiT") == "exit";
    assert Lower("خروج") == "خروج";
  }

  /** A line ends the session exactly when its stripped form is an exit
      command; otherwise the chatbot gets the stripped line, which has no
      surrounding whitespace, and its language guess. */
  lemma DispatchSpec(line: string)
    ensures Dispatch(line) == Quit <==> IsExitCommand(Strip(line))
    ensures Dispatch(line).Ask? ==>
      Dispatch(line).prompt == Strip(line) && IsTrimmed(Dispatch(line).prompt)
      && Dispatch(line).lang == Classify(line)
  {
    ClassifyIgnoresSurroundingSpace(line);
  }

  /** An exit command, with any surrounding whitespace and in any ASCII
      case, stops the loop before the chatbot is asked anything. */
  lemma ExitStopsBeforeChatbot(h: seq<string>, withSystemPrompt: bool, line: string, outcome: Chatbot.Outcome)
    requires IsExitCommand(Strip(line))
    ensures ChatTurn(h, withSystemPrompt, line, outcome) == Stop("Chatbot: Goodbye!")
  {
  }

  /** A blank line is not an exit command: the chatbot answers it with the
      fixed message and nothing changes. */
  lemma BlankLineAnswered(h: seq<string>, withSystemPrompt: bool, line: string, outcome: Chatbot.Outcome)
    requires IsBlank(line)
    ensures ChatTurn(h, withSystemPrompt, line, outcome)
      == Continue("Chatbot: " + Chatbot.InvalidPromptReply,
                  Chatbot.Exchange(Chatbot.InvalidPromptReply, h, Chatbot.NoCall))
  {
    assert Strip(line) == [];
    assert Lower([]) == [];
    assert !IsExitCommand([]);
    assert Dispatch(line) == Ask([], "en");
  }

  /** With the system prompt enabled, a line holding a listed Arabic letter
      that is not an exit command is sent with the Arabic system prompt in
      front, and any other such line with the English one. */
  lemma SystemPromptFollowsLine(h: seq<string>, line: string, outcome: Chatbot.Outcome)
    requires !IsExitCommand(Strip(line)) && !IsBlank(line)
    ensures var t := ChatTurn(h, true, line, outcome);
      t.Continue? && t.exchange.request.Call?
      && (HasArabicLetter(line) ==> Chatbot.ArabicSystemPrompt <= t.exchange.request.context)
      && (!HasArabicLetter(line) ==> Chatbot.EnglishSystemPrompt <= t.exchange.request.context)
  {
    var p := Strip(line);
    ClassifyIgnoresSurroundingSpace(line);
    assert HasArabicLetter(line) <==> Classify(line) == "ar";
    assert Dispatch(line) == Ask(p, Classify(line));
    assert !IsBlank(p);
    Chatbot.SystemPromptLeadsContext(h, p, Classify(line), outcome);
  }
}
