# VRChatbot conversation bookkeeping, in Dafny

`VRChatbot` is a command-line medical-simulation chatbot. Each line the user
types is stripped. The line ends the session when its lowercase form is
`exit`, `quit` or `خروج`; otherwise it is classified as Arabic or English and
passed to `get_response`, which:

- rejects a blank prompt;
- appends `"User: <prompt>"` to an in-memory history;
- builds a context from the last five history entries and the prompt line,
  optionally preceded by a language-selected system prompt;
- sends the context to a generation service;
- turns the service's answer (text, no text, or an exception) into the reply,
  recording non-empty answers as `"Chatbot: <reply>"`.

The repository has two variants of the class. `Final2_Chatbot.py` puts the
system prompt in front of the context; `final_chatbot.py` does not. The model
has one class, `Chatbot.VRChatbot`, with a constant `withSystemPrompt`
(`true` for `Final2_Chatbot.py`, `false` for `final_chatbot.py`). Each file's
context is proved in its own lemma.

Files:

- `strings.dfy` (module `Strings`): Python's `str.isspace` (the exact set of
  Unicode whitespace characters), `strip`, `lower` on ASCII letters, and
  `"\n".join` with its inverse `split`.
- `chatbot.dfy` (module `Chatbot`):
  - the service's answer as `Outcome = Text(text) | NoText | Failure(detail)`;
  - the pure specification `Respond` of one `get_response` call;
  - the class `VRChatbot`, whose `GetResponse` method updates `history` in
    place and is proved equal to `Respond`;
  - the lemmas about `Respond`.
- `console.dfy` (module `Console`): the exit test and the Arabic classifier
  from `start_chat`, and one turn of its loop as a value (`ChatTurn`).

The generation service is a parameter. `GetResponse` receives the `Outcome`
the service would produce and reports, in a ghost out-parameter, whether the
service was called and with which context.

`get_response` appends the user line (Final2_Chatbot.py:31,
final_chatbot.py:31) before taking `history[-5:]` (Final2_Chatbot.py:51,
final_chatbot.py:35). So the context holds at most the four latest entries
stored before the call, then the new user line twice: once from the window,
once appended again (`RequestWithSystemPrompt`, `RequestWithoutSystemPrompt`,
`ContextEndsWithPromptTwice`).

## Model

| member | source | states |
|---|---|---|
| `Strings.Strip` | Final2_Chatbot.py:28 | `strip()` leaves no whitespace at either end, and its result is empty exactly when the input is blank (the `not prompt.strip()` test) |
| `Strings.StripIsSlice` | Final2_Chatbot.py:56 | `strip()` yields a contiguous slice of its input with only whitespace before and after it |
| `Strings.StripUnique` | final_chatbot.py:39 | any slice with only whitespace around it and no whitespace at its ends is the result of `strip()`, so `Strip` is pinned down by its characterisation |
| `Strings.StripIdempotent` | Final2_Chatbot.py:69 | stripping an already stripped reply changes nothing |
| `Strings.Lower` | final_chatbot.py:54 | `lower()` keeps the length and lowers each ASCII letter, leaving every other character alone |
| `Strings.SplitJoin` | Final2_Chatbot.py:51 | splitting the `"\n".join` of entries that contain no newline gives the entries back |
| `Strings.JoinSplit` | final_chatbot.py:35 | joining the parts of any `split("\n")` restores the string, so join and split are inverse |
| `Strings.JoinSnoc` | Final2_Chatbot.py:51 | joining one more entry adds one newline and that entry at the end |
| `Chatbot.Window` | final_chatbot.py:35 | `history[-5:]` is the suffix of length min(5, size) |
| `Chatbot.VRChatbot.constructor` | Final2_Chatbot.py:8-17 | a new chatbot keeps its model name and starts with an empty, well-formed history (same in final_chatbot.py:8-17) |
| `Chatbot.VRChatbot.GetResponse` | Final2_Chatbot.py:26-63 | the reply, the new history and the service call are exactly those of `Respond` on the old history; it requires and keeps the history invariant `Valid()`, which holds from the constructor on (same method in final_chatbot.py:26-46) |
| `Chatbot.RespondKeepsWellFormed` | Final2_Chatbot.py:31-57 | every call keeps the history invariant: each entry is a `User:` line, or a `Chatbot:` line directly after a `User:` line |
| `Chatbot.BlankPromptRejected` | Final2_Chatbot.py:28-29 | a prompt is blank if and only if the call returns `"Please enter a valid question."`, leaves the history unchanged and makes no service call (same in final_chatbot.py:28-29) |
| `Chatbot.HistoryIsAppendOnly` | Final2_Chatbot.py:31-63 | the old history is always a prefix of the new one, at most two entries are added, and a non-blank prompt always adds `"User: " + prompt` first and calls the service, whatever the outcome |
| `Chatbot.ChatbotLineOnlyForText` | Final2_Chatbot.py:55-60 | the history grows by two if and only if the prompt is non-blank and the service returned non-empty text |
| `Chatbot.TextReplyRecorded` | Final2_Chatbot.py:55-58 | with non-empty text the reply is `strip(text)`, carries no surrounding whitespace, and the history gains exactly `"User: " + prompt` and `"Chatbot: " + strip(text)` |
| `Chatbot.BlankTextGivesEmptyReply` | final_chatbot.py:38-41 | text made only of whitespace passes the truth test: the reply is empty and the history gains an empty `"Chatbot: "` line |
| `Chatbot.MissingTextFallback` | final_chatbot.py:42-43 | missing or empty text returns exactly `"I couldn't process that, please try again!"` and only the user line is added (same in Final2_Chatbot.py:59-60) |
| `Chatbot.FailureReported` | final_chatbot.py:45-46 | a failing call returns `"An error occurred: " + detail` as a normal reply, and the user line stays (same in Final2_Chatbot.py:62-63) |
| `Chatbot.SystemPromptSelection` | Final2_Chatbot.py:48 | the Arabic system prompt is selected if and only if `lang == "ar"`; every other value selects the English one |
| `Chatbot.SystemPromptLeadsContext` | Final2_Chatbot.py:48-51 | with the system prompt enabled, the context sent starts with the prompt that `lang` selects |
| `Chatbot.RespondCalls` | final_chatbot.py:31-36 | for a non-blank prompt the service is called with the context built from the history that already holds the new user line |
| `Chatbot.ContextLinesShape` | final_chatbot.py:35 | the joined entries are at most the four latest entries stored before the call, then the user line twice |
| `Chatbot.RequestWithSystemPrompt` | Final2_Chatbot.py:51 | the context is the system prompt, a newline, then the newline-joined entries: at most the four latest stored entries in order, and `"User: " + prompt` twice; equally, the join of the system prompt followed by those entries |
| `Chatbot.RequestWithoutSystemPrompt` | final_chatbot.py:35 | the context is only the newline-joined entries: at most the four latest stored entries in order, and `"User: " + prompt` twice |
| `Chatbot.ContextEndsWithUserLineTwice` | Final2_Chatbot.py:51 | the context built after the append ends with the user line, a newline and the user line again, with or without a system prompt |
| `Chatbot.ContextEndsWithPromptTwice` | final_chatbot.py:31-35 | the context sent for any non-blank prompt ends with `"User: " + prompt`, a newline and the same line again |
| `Chatbot.AnsweredTurnsAlternate` | final_chatbot.py:31-41 | after N answered turns from an empty history, the history has 2N entries: turn i's user line at 2i and its chatbot line at 2i+1 |
| `Console.HasArabicLetter` | Final2_Chatbot.py:75 | the `any(...)` test holds if and only if some character of the input is one of the 31 listed letters |
| `Console.Classify` | final_chatbot.py:58-61 | the language is `"ar"` or `"en"`, and it is `"ar"` if and only if some character is one of the listed letters |
| `Console.ArabicLettersInRange` | Final2_Chatbot.py:75 | every listed letter lies between U+0622 (alef with madda) and U+064A (yeh) |
| `Console.OutsideArabicRangeIsEnglish` | final_chatbot.py:58-61 | input with no character from U+0622 to U+064A (Latin text, digits, punctuation) is classified `"en"` |
| `Console.ClassifyConcat` | Final2_Chatbot.py:75-78 | a concatenation is Arabic if and only if one of its parts is, so mixed text is Arabic |
| `Console.ClassifyExamples` | Final2_Chatbot.py:75-78 | `"hello"` is `"en"`, `"مرحبا"` and `"hi مرحبا"` are `"ar"`, and the unlisted letter `"ة"` is `"en"` |
| `Console.ClassifyIgnoresSurroundingSpace` | Final2_Chatbot.py:69-75 | no listed letter is whitespace, so classifying the stripped line gives the same language as the raw line |
| `Console.ExitCommandIgnoresCase` | Final2_Chatbot.py:71 | the exit test gives the same answer for a line and for its lowercase form |
| `Console.ExitCommandExamples` | final_chatbot.py:54 | every exit command has four characters; `EXIT`, `Quit`, `eXiT` and `خروج` are exit commands; `"exit "` and `"exit!"` are not |
| `Console.DispatchSpec` | Final2_Chatbot.py:69-80 | a line ends the session if and only if its stripped form is an exit command; otherwise `get_response` receives the stripped line, which has no surrounding whitespace, and the language of the raw line |
| `Console.ExitStopsBeforeChatbot` | Final2_Chatbot.py:71-73 | an exit command, with any surrounding whitespace or ASCII case, prints the farewell and never reaches `get_response` |
| `Console.BlankLineAnswered` | final_chatbot.py:52-64 | a blank line is not an exit command; it is answered `"Chatbot: Please enter a valid question."` and the history is unchanged |
| `Console.SystemPromptFollowsLine` | Final2_Chatbot.py:75-80 | with the system prompt enabled, a non-exit line containing a listed letter is sent with the Arabic system prompt first; any other non-blank, non-exit line is sent with the English one |

## Left out

- Loading `API_Key.env`, reading `APIKEY` and raising `ValueError` when it is missing (lines 9-13 of both files): environment I/O. The constructor starts from a present key.
- `configure_api` and the generation client (`genai.configure`, `GenerativeModel`, `generate_content`, `response.text`): a foreign library. Its answer is the `Outcome` parameter. The model name is stored but has no effect in the model.
- Chatbot.VRChatbot.GetResponse: the ghost `request` records the assembled context even for `Failure`. In the source an exception from `GenerativeModel(...)` comes before the context is built or sent. The model does not say at which step a failure happened.
- The `input`/`print` loop of `start_chat` and the `__main__` block: interactive I/O. Only one turn is modelled (`Console.ChatTurn`, with printed text as a value). The repetition, and the `EOFError` Python raises at the end of input, are left out.
- Strings.Lower: lowers ASCII letters only, not all of Unicode. The exit test stays exact. No non-ASCII character lowercases to a single letter of `exit` or `quit`. `İ` (U+0130) lowercases to `i` followed by U+0307, a mark no exit word contains, so a line holding it is no exit command in either version. `خروج` has no case.
- `__init__`'s default model name `"gemini-1.5-pro-latest"` and `get_response`'s default `lang="en"`: Dafny has no default arguments here, so callers pass them.
