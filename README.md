# Healthcare chat backend: prompt formatting, routing and conversation memory

This project models the core of the chat backend's `/chat/` endpoint
(`backend/main.py`) in Dafny and proves properties of that model.

- **`format_input`** is a classifier that rewrites a user prompt:
  - blank text gets a greeting;
  - a bare number becomes a question about the number;
  - a `d/m/yyyy`-shaped date becomes a question about the date;
  - two capitalised words become a "who is" question;
  - anything else passes through stripped.

  It is modelled as the pure function `PromptFormat.FormatInput`. The
  Python string builtins it relies on are modelled in `Text`: `strip`,
  `split`, `isdigit` and `isupper`. The regular
  expression `^\d{1,2}[/.-]\d{1,2}[/.-]\d{4}$` under `re.match` becomes a
  greedy scanner, `RegexDateMatch`. It is proved equal to the declarative
  date shape `DateShaped`, or to that shape followed by one newline, which
  `$` also accepts.
- **`chat_with_ai`** works in four steps:
  - it records the raw prompt in the process-wide list
    `conversation_memory`;
  - it builds the final prompt from the newline-joined memory and the
    formatted prompt;
  - it routes the request to GPT-4 when the lower-cased raw prompt contains
    `"explain"` or `"how does"`, and to Gemini otherwise;
  - it records the answer and returns it.

  The builtins it uses are modelled in `Text` as well: `"\n".join` and
  `lower`, and `in` on strings. The list is the class
  `Chat.ConversationMemory`, with one method for the
  append-and-trim step and one for the plain append. `Chat.ChatWithAi` is
  the handler. It is proved against the function `Chat.HandleChat`, and
  the lemmas state what one request and a run of requests do.
- **Failures**:
  - the GPT-4 wrapper `generate_gpt4_response` turns a failed call into its
    own apology, which is then remembered and returned like any answer;
  - a Gemini failure escapes to the handler's `except`, which returns a
    different apology and records no AI entry.

  The two providers are parameters of type `string -> Reply`. Each is given
  the final prompt and answers `Ok(text)` or `Fail`.

Two comments in the source promise more than the code does, and the model
follows the code:

- The comment at line 86 reads "Keep only the last 5 messages". The code
  trims only right after appending the user entry (lines 87-88), and then
  appends the AI entry with no second trim (line 110). So once the memory
  holds 5 entries, each answered request adds one more. `GrowthPastLimit`,
  `LengthFromEmpty` and `MemoryOutgrowsLimit` prove this growth, and no cap
  is claimed.
- The comment at line 61 says the original is returned when no
  formatting applies. What line 61 returns is the text as stripped at
  line 42, and `FormatPlain` states exactly that.

The two failure paths answer with different strings:

- the GPT-4 wrapper returns "I'm sorry, but I couldn't process your
  request." (line 75);
- the handler returns "I'm sorry, but I couldn't process your request.
  Please try again." (line 116).

Files:

- `text.dfy` (module `Text`): ASCII models of the Python string operations,
  and their characterisations.
- `format.dfy` (module `PromptFormat`): `format_input` and its branch lemmas.
- `chat.dfy` (module `Chat`): routing, the GPT-4 wrapper, the memory class,
  the handler and the lemmas about requests.

## Model

| member | source | states |
|---|---|---|
| Text.Strip | backend/main.py:42 | the result has no whitespace at either end, and it is empty exactly when the input is all whitespace |
| Text.StripUnique | backend/main.py:42 | a text with no whitespace at its ends, surrounded by any whitespace, strips back to itself |
| Text.StripIdempotent | backend/main.py:42 | stripping twice equals stripping once |
| Text.Split | backend/main.py:57 | every piece `split()` returns is non-empty and holds no whitespace |
| Text.SplitEmpty | backend/main.py:57 | `split()` finds no word exactly when the text is all whitespace |
| Text.SplitAtGap | backend/main.py:57-58 | a text made of a word, a whitespace run and a word splits into exactly those two words |
| Text.SplitTwo | backend/main.py:57-58 | on stripped text, `split()` gives two pieces exactly when the text is two words separated by whitespace, and it names the gap |
| Text.Lower | backend/main.py:104 | `lower()`, character by character on ASCII and keeping the length; `LowerWindow` and `RouteIgnoresCase` state what it does to a keyword match |
| Text.Contains | backend/main.py:104 | Python's `sub in s`, an occurrence at some index; `LowerWindow` and `RouteIff` relate it to a case-insensitive match |
| Text.LowerWindow | backend/main.py:104 | a window of the lower-cased text equals a lower-case keyword exactly when the raw characters match it case-insensitively |
| Text.Join | backend/main.py:90 | `sep.join(xs)`; `JoinContains` states that every entry occurs in the result |
| Text.JoinContains | backend/main.py:90 | every joined entry occurs in the `"\n"`-joined text |
| Text.ContainsTrans | backend/main.py:90-101 | a substring of a substring is a substring |
| PromptFormat.FormatInput | backend/main.py:40-61 | the formatter never returns the empty string |
| Text.IsDigitString | backend/main.py:48 | `isdigit()`: non-empty and all ASCII digits; `DateNotNumber` and `PairNotNumberOrDate` state that dates and name pairs fail it |
| PromptFormat.DigitRun | backend/main.py:52-53 | greedy `\d{0,k}`: at most `k` characters, all digits, and stopping before a digit only at the cap; `DigitRunExact` states it is the unique such run |
| PromptFormat.RegexDateMatch | backend/main.py:52-53 | the pattern scanned greedily, `$` accepting the end or one final newline; `RegexDateMatchIff` states which texts it accepts |
| PromptFormat.RegexDateMatchIff | backend/main.py:52-53 | `re.match` of the date pattern succeeds exactly on a date shape, or a date shape followed by one newline |
| PromptFormat.MatchedDate | backend/main.py:52-53 | where the pattern matches, the digit runs it finds form a date shape that ends the text or is followed by a newline |
| PromptFormat.DateAtMatches | backend/main.py:52-53 | a date shape that ends the text, or is followed by one final newline, is matched by the pattern |
| PromptFormat.DigitRunExact | backend/main.py:52 | greedy `\d{0,k}` stops exactly after the maximal digit run |
| PromptFormat.DateNotNumber | backend/main.py:48-54 | a date never takes the all-digits branch |
| PromptFormat.DateHasNoSpace | backend/main.py:52-58 | a date contains no whitespace |
| PromptFormat.PairNotNumberOrDate | backend/main.py:48-58 | two words are neither a number nor a date |
| PromptFormat.NameTestIff | backend/main.py:57-58 | on stripped text, the `split()` test for two capitalised words holds exactly when the text is two words separated by whitespace, each starting with an upper-case letter |
| PromptFormat.FormatBlank | backend/main.py:42-45 | blank or whitespace-only input gives exactly the greeting |
| PromptFormat.QuestionsAreNotGreeting | backend/main.py:45-59 | none of the three question templates equals the greeting |
| PromptFormat.FormatGreetingOnlyWhenBlank | backend/main.py:42-61 | the greeting comes out only for blank input, or for input that strips to the greeting text itself |
| PromptFormat.FormatNumber | backend/main.py:48-49 | stripped all-digit input gives exactly the number question around the stripped text |
| PromptFormat.FormatDate | backend/main.py:52-54 | stripped date-shaped input, any mix of `/ . -` separators, gives exactly the date question |
| PromptFormat.FormatName | backend/main.py:57-59 | two capitalised words give exactly the who-is question |
| PromptFormat.FormatPlain | backend/main.py:61 | non-blank input that is no number, no date and no capitalised pair comes back as its stripped text |
| Chat.Route | backend/main.py:104-108 | decided on the raw prompt, not the formatted one; `RouteIff` characterises it |
| Chat.RouteIff | backend/main.py:104-108 | GPT-4 is chosen exactly when the raw prompt contains "explain" or "how does" in any letter case, and Gemini exactly otherwise |
| Chat.RouteIgnoresCase | backend/main.py:104 | lower-casing the prompt does not change the route |
| Chat.GenerateGpt4Response | backend/main.py:63-75 | the wrapper returns the provider's text, or the fixed apology exactly when the call fails |
| Chat.FinalPrompt | backend/main.py:92-101 | the f-string of lines 92-101, character for character; `FinalPromptHolds` states where the history and the formatted prompt sit in it |
| Chat.PromptFor | backend/main.py:84-101 | the final prompt built from the memory after append-and-trim and from the formatted prompt; `ProviderSeesMemory` states what it contains |
| Chat.FinalPromptHolds | backend/main.py:92-101 | the final prompt holds the history after the preamble and the formatted prompt after the interlude |
| Chat.ProviderSeesMemory | backend/main.py:84-101 | the provider's prompt contains every remembered entry, the new user entry and the formatted prompt |
| Chat.Remember | backend/main.py:84-88 | after append-and-trim the user entry is last, the length is prev+1 below 5 and prev otherwise, and the other entries are the newest old ones in their old order |
| Chat.ConversationMemory.constructor | backend/main.py:38 | the memory starts empty |
| Chat.ConversationMemory.RecordUser | backend/main.py:84-88 | appending the user entry and dropping the oldest past 5 leaves exactly `Remember(old entries, prompt)` |
| Chat.ConversationMemory.RecordAi | backend/main.py:110 | the AI entry is appended with no trim |
| Chat.ChatWithAi | backend/main.py:77-116 | the new memory and the response are those of `HandleChat` on the old memory |
| Chat.HandleChat | backend/main.py:77-116 | one request: the new memory and the response; `HandleAnswered`, `HandleGeminiFailure`, `HandleGpt4Failure` and `HandleUsesRoutedProvider` state its outcomes, and `ChatWithAi` is proved against it |
| Chat.HandleAnswered | backend/main.py:104-112 | an answered request ends the memory with the user entry and then the AI entry, grows it by two below 5 and by one otherwise, and returns the provider's text or GPT-4's apology |
| Chat.HandleGeminiFailure | backend/main.py:107-116 | a failed Gemini call returns the handler's apology and records only the user entry |
| Chat.HandleGpt4Failure | backend/main.py:73-75 | a failed GPT-4 call records and returns the wrapper's apology |
| Chat.HandleUsesRoutedProvider | backend/main.py:104-108 | the outcome does not depend on the provider that was not routed to |
| Chat.AnsweredLength | backend/main.py:84-110 | with an answering Gemini, one request adds two entries below 5 and one at 5 or more |
| Chat.Replay | backend/main.py:84-110 | the memory after requests handled one after another; `ReplayLength` states its size |
| Chat.RunMemory | backend/main.py:84-110 | the memory after a sequence of `chat_with_ai` requests; `RunLength`, `GrowthPastLimit` and `LengthFromEmpty` state its size |
| Chat.ReplayLength | backend/main.py:84-110 | a step that grows the memory by two below 5 and by one otherwise leaves the size `AnsweredSize` predicts after any run |
| Chat.RunLength | backend/main.py:84-110 | a run of answered requests leaves the size `AnsweredSize` predicts |
| Chat.AnsweredSizePastLimit | backend/main.py:86-110 | from 5 entries or more, every request adds exactly one entry |
| Chat.GrowthPastLimit | backend/main.py:86-110 | once the memory holds 5 or more entries, `k` answered requests add exactly `k` entries |
| Chat.AnsweredSizeFromEmpty | backend/main.py:84-110 | from empty, the memory size is 2k for the first three requests and k+3 from then on |
| Chat.LengthFromEmpty | backend/main.py:84-110 | from an empty memory, `k` answered requests leave 2k entries for k ≤ 3 and k+3 entries after that |
| Chat.MemoryOutgrowsLimit | backend/main.py:86-110 | four or more answered requests from an empty memory leave more than 5 entries |

## Left out

- The FastAPI application, CORS, `.env` loading and the start-up error on a missing key (lines 1-32): framework and configuration plumbing.
- The OpenAI and Gemini network calls and the printing of tracebacks (lines 68-74, 107-108, 115). Providers are deterministic parameters from the final prompt to `Ok(text)` or `Fail`. Timeouts, model names and the response JSON shapes are not modelled.
- A GPT-4 reply whose content is `None`, and a Gemini reply without `.text`. The model assumes every `Ok` carries a string, and lumps a missing `.text` into `Fail`.
- The `{"response": ...}` JSON wrapper is not modelled: the handler returns the response text.
- `str(prompt_text)`: the prompt is already a string in the request model.
- Unicode semantics of `strip`, `split`, `isdigit`, `isupper` and `lower`: the model covers ASCII only.
  - whitespace is codes 9-13 and 28-32;
  - digits are `0`-`9`;
  - upper-case letters are `A`-`Z`;
  - lower-casing maps `A`-`Z`.
- Concurrent requests sharing the global list: requests are modelled one after another.
- `backend/idx_auth.py` and the frontend files: not part of this model.
- The doctor and places search, the location fallback, the canned replies and `GET /`: no such code appears in `backend/main.py`, so there is nothing to model.
- Exceptions other than a Gemini failure before line 110 (for example inside `format_input` or `join`): the modelled operations cannot fail.
- FormatGreetingOnlyWhenBlank: states only one direction. The reverse, that input stripping to the greeting text gives the greeting back, is not proved, because it needs the two-word test evaluated on that fixed text.
