/**
 The `/chat/` request handler `chat_with_ai` of the chat backend: it formats
 the prompt, records it in the process-wide conversation memory, builds the
 final prompt from the remembered history, routes the request to GPT-4 or to
 Gemini by keywords of the raw prompt, records the answer and returns it.

 The two providers are parameters of type `string -> Reply`: each is handed
 the final prompt and either answers with a text or fails.
 */
module Chat {
  import opened Text
  import opened PromptFormat

  datatype ChatRequest = ChatRequest(prompt: string)

  /** What a provider call gives: a text, or an exception. */
  datatype Reply = Ok(text: string) | Fail

  datatype Provider = Gpt4 | Gemini

  /** The memory is trimmed when it grows beyond this many entries. */
  const MemoryLimit := 5

  /** Returned by the GPT-4 wrapper when its call fails. */
  const Gpt4Apology := "I'm sorry, but I couldn't process your request."

  /** Returned by the handler when anything else in a request fails. */
  const RequestApology := "I'm sorry, but I couldn't process your request. Please try again."

  function UserEntry(prompt: string): string { "User: " + prompt }

  function AiEntry(response: string): string { "AI: " + response }

  // ---------------------------------------------------------------------
  // Routing

  /** GPT-4 for prompts that ask to explain, Gemini for everything else;
      decided on the raw prompt, not the formatted one. */
  function Route(prompt: string): Provider {
    if Contains(Lower(prompt), "explain") || Contains(Lower(prompt), "how does") then Gpt4
    else Gemini
  }

  /** `kw` occurs in `s` at `i`, ignoring the case of the letters of `s`. */
  predicate MatchesAt(s: string, i: nat, kw: string) {
    i + |kw| <= |s| && forall k :: 0 <= k < |kw| ==> LowerChar(s[i + k]) == kw[k]
  }

  /** The prompt mentions "explain" or "how does" in any letter case. */
  predicate MentionsKeyword(prompt: string) {
    exists i: nat | i <= |prompt| :: MatchesAt(prompt, i, "explain") || MatchesAt(prompt, i, "how does")
  }

  // ---------------------------------------------------------------------
  // The GPT-4 wrapper and the final prompt

  /** `generate_gpt4_response`: the provider's text, or the fixed apology
      when the call fails; it never fails itself. */
  function GenerateGpt4Response(gpt4: string -> Reply, userInput: string): (r: string)
    ensures gpt4(userInput) == Ok(r) || (gpt4(userInput) == Fail && r == Gpt4Apology)
  {
    match gpt4(userInput)
    case Ok(text) => text
    case Fail => Gpt4Apology
  }

  const Indent := "        "

  const Preamble :=
    "\n" + Indent + "You are a highly intelligent healthcare assistant. You provide \n"
    + Indent + "detailed, accurate answers related to health. You also answer general \n"
    + Indent + "questions to the best of your ability. Here is the conversation so far:\n\n"
    + Indent

  const Interlude := "\n\n" + Indent + "Now answer this question:\n" + Indent

  const Closing := "\n" + Indent

  /** The text handed to the provider: the instructions, the history and
      the formatted question. */
  function FinalPrompt(history: string, formatted: string): string {
    Preamble + history + Interlude + formatted + Closing
  }

  // ---------------------------------------------------------------------
  // Conversation memory

  /** The memory after recording a user prompt: append, then drop the
      oldest entry if there are now more than `MemoryLimit`. The entries
      kept are the newest ones of the old memory, in their old order,
      followed by the new entry. */
  function Remember(m: seq<string>, prompt: string): (r: seq<string>)
    ensures |r| == if |m| < MemoryLimit then |m| + 1 else |m|
    ensures r[|r| - 1] == UserEntry(prompt)
    ensures r[..|r| - 1] == m[|m| + 1 - |r|..]
  {
    var grown := m + [UserEntry(prompt)];
    if |grown| > MemoryLimit then grown[1..] else grown
  }

  /** The prompt sent to the provider for `prompt` when the memory was `m`
      before the request. */
  function PromptFor(m: seq<string>, prompt: string): string {
    FinalPrompt(Join(Remember(m, prompt), "\n"), FormatInput(prompt))
  }

  /** The new memory and the response text of one request. */
  datatype Turn = Turn(memory: seq<string>, response: string)

  /** What one request does to the memory and what it returns. */
  function HandleChat(m: seq<string>, prompt: string, gpt4: string -> Reply,
                      gemini: string -> Reply): Turn
  {
    var remembered := Remember(m, prompt);
    var finalPrompt := PromptFor(m, prompt);
    match Route(prompt)
    case Gpt4 =>
      var text := GenerateGpt4Response(gpt4, finalPrompt);
      Turn(remembered + [AiEntry(text)], text)
    case Gemini =>
      match gemini(finalPrompt)
      case Ok(text) => Turn(remembered + [AiEntry(text)], text)
      case Fail => Turn(remembered, RequestApology)
  }

  /** The memory after handling `prompts` one after the other with `step`. */
  function Replay(m: seq<string>, prompts: seq<string>,
                  step: (seq<string>, string) -> seq<string>): seq<string>
    decreases |prompts|
  {
    if prompts == [] then m else Replay(step(m, prompts[0]), prompts[1..], step)
  }

  /** The memory after a sequence of requests. */
  function RunMemory(m: seq<string>, prompts: seq<string>, gpt4: string -> Reply,
                     gemini: string -> Reply): seq<string>
  {
    Replay(m, prompts, (mem, prompt) => HandleChat(mem, prompt, gpt4, gemini).memory)
  }

  /** The global list `conversation_memory`. */
  class ConversationMemory {
    var entries: seq<string>

    constructor ()
      ensures entries == []
    {
      entries := [];
    }

    /** Append the user entry and trim the oldest one past the limit. */
    method RecordUser(prompt: string)
      modifies this
      ensures entries == Remember(old(entries), prompt)
    {
      entries := entries + [UserEntry(prompt)];
      if |entries| > MemoryLimit {
        entries := entries[1..];
      }
    }

    /** Append the AI entry; there is no trim here. */
    method RecordAi(response: string)
      modifies this
      ensures entries == old(entries) + [AiEntry(response)]
    {
      entries := entries + [AiEntry(response)];
    }
  }

  /** `chat_with_ai`. */
  method ChatWithAi(memory: ConversationMemory, request: ChatRequest,
                    gpt4: string -> Reply, gemini: string -> Reply)
    returns (response: string)
    modifies memory
    ensures Turn(memory.entries, response)
            == HandleChat(old(memory.entries), request.prompt, gpt4, gemini)
  {
    var formatted := FormatInput(request.prompt);
    memory.RecordUser(request.prompt);
    var history := Join(memory.entries, "\n");
    var finalPrompt := FinalPrompt(history, formatted);
    var responseText;
    if Route(request.prompt) == Gpt4 {
      responseText := GenerateGpt4Response(gpt4, finalPrompt);
    } else {
      var reply := gemini(finalPrompt);
      if reply.Fail? {
        return RequestApology;
      }
      responseText := reply.text;
    }
    memory.RecordAi(responseText);
    response := responseText;
  }

  // ---------------------------------------------------------------------
  // Lemmas: routing

  /** GPT-4 is chosen exactly when the raw prompt mentions "explain" or
      "how does" in any letter case. */
  lemma RouteIff(prompt: string)
    ensures Route(prompt) == Gpt4 <==> MentionsKeyword(prompt)
    ensures Route(prompt) == Gemini <==> !MentionsKeyword(prompt)
  {
    var low := Lower(prompt);
    forall i: nat | i <= |prompt|
      ensures OccursAt(low, "explain", i) <==> MatchesAt(prompt, i, "explain")
      ensures OccursAt(low, "how does", i) <==> MatchesAt(prompt, i, "how does")
    {
      if i + 7 <= |prompt| { LowerWindow(prompt, "explain", i); }
      if i + 8 <= |prompt| { LowerWindow(prompt, "how does", i); }
    }
  }

  /** Routing ignores the letter case of the prompt. */
  lemma RouteIgnoresCase(prompt: string)
    ensures Route(Lower(prompt)) == Route(prompt)
  {
    var low := Lower(prompt);
    assert Lower(low) == low by {
      forall k | 0 <= k < |low| ensures Lower(low)[k] == low[k] {
        assert LowerChar(LowerChar(prompt[k])) == LowerChar(prompt[k]);
      }
    }
  }

  // ---------------------------------------------------------------------
  // Lemmas: what the provider is shown

  /** The final prompt holds the history and the formatted question. */
  lemma FinalPromptHolds(history: string, formatted: string)
    ensures OccursAt(FinalPrompt(history, formatted), history, |Preamble|)
    ensures OccursAt(FinalPrompt(history, formatted), formatted,
                     |Preamble| + |history| + |Interlude|)
  {
    OccursInMiddle(Preamble, history, Interlude);
    OccursExtend(Preamble + history + Interlude, history, |Preamble|, formatted);
    OccursExtend(Preamble + history + Interlude + formatted, history, |Preamble|, Closing);
    OccursInMiddle(Preamble + history + Interlude, formatted, Closing);
  }

  /** The provider is shown every remembered entry, the new user entry
      among them, and the formatted question. */
  lemma ProviderSeesMemory(m: seq<string>, prompt: string)
    ensures forall k :: 0 <= k < |Remember(m, prompt)| ==>
              Contains(PromptFor(m, prompt), Remember(m, prompt)[k])
    ensures Contains(PromptFor(m, prompt), UserEntry(prompt))
    ensures Contains(PromptFor(m, prompt), FormatInput(prompt))
  {
    var r := Remember(m, prompt);
    var history := Join(r, "\n");
    FinalPromptHolds(history, FormatInput(prompt));
    forall k | 0 <= k < |r| ensures Contains(PromptFor(m, prompt), r[k]) {
      JoinContains(r, "\n", k);
      ContainsTrans(PromptFor(m, prompt), history, r[k]);
    }
  }

  // ---------------------------------------------------------------------
  // Lemmas: outcomes of one request

  /** A request answered by a provider, or by the GPT-4 wrapper's apology,
      leaves the user entry followed by the AI entry at the end of the
      memory, and the response is the provider's text or that apology. */
  lemma HandleAnswered(m: seq<string>, prompt: string, gpt4: string -> Reply,
                       gemini: string -> Reply)
    requires Route(prompt) == Gpt4 || gemini(PromptFor(m, prompt)).Ok?
    ensures var t := HandleChat(m, prompt, gpt4, gemini);
            && t.memory == Remember(m, prompt) + [AiEntry(t.response)]
            && |t.memory| == (if |m| < MemoryLimit then |m| + 2 else |m| + 1)
            && t.memory[|t.memory| - 2] == UserEntry(prompt)
            && t.memory[|t.memory| - 1] == AiEntry(t.response)
            && (Route(prompt) == Gemini ==> gemini(PromptFor(m, prompt)) == Ok(t.response))
            && (Route(prompt) == Gpt4 ==>
                  gpt4(PromptFor(m, prompt)) == Ok(t.response)
                  || (gpt4(PromptFor(m, prompt)) == Fail && t.response == Gpt4Apology))
  {
  }

  /** A failed Gemini call returns the handler's apology and leaves only
      the user entry in the memory. */
  lemma HandleGeminiFailure(m: seq<string>, prompt: string, gpt4: string -> Reply,
                            gemini: string -> Reply)
    requires Route(prompt) == Gemini && gemini(PromptFor(m, prompt)) == Fail
    ensures HandleChat(m, prompt, gpt4, gemini)
            == Turn(Remember(m, prompt), RequestApology)
  {
  }

  /** A failed GPT-4 call is answered with the wrapper's apology, which is
      remembered like any answer. */
  lemma HandleGpt4Failure(m: seq<string>, prompt: string, gpt4: string -> Reply,
                          gemini: string -> Reply)
    requires Route(prompt) == Gpt4 && gpt4(PromptFor(m, prompt)) == Fail
    ensures HandleChat(m, prompt, gpt4, gemini)
            == Turn(Remember(m, prompt) + [AiEntry(Gpt4Apology)], Gpt4Apology)
  {
  }

  /** Only the routed provider is consulted. */
  lemma HandleUsesRoutedProvider(m: seq<string>, prompt: string,
                                 gpt4: string -> Reply, gpt4': string -> Reply,
                                 gemini: string -> Reply, gemini': string -> Reply)
    ensures Route(prompt) == Gpt4 ==>
              HandleChat(m, prompt, gpt4, gemini) == HandleChat(m, prompt, gpt4, gemini')
    ensures Route(prompt) == Gemini ==>
              HandleChat(m, prompt, gpt4, gemini) == HandleChat(m, prompt, gpt4', gemini)
  {
  }

  // ---------------------------------------------------------------------
  // Lemmas: the memory over many requests

  ghost predicate NeverFails(provider: string -> Reply) {
    forall p :: provider(p).Ok?
  }

  /** With a Gemini that always answers, each request adds two entries
      below the limit and one at or above it. */
  lemma AnsweredLength(m: seq<string>, prompt: string, gpt4: string -> Reply,
                       gemini: string -> Reply)
    requires NeverFails(gemini)
    ensures |HandleChat(m, prompt, gpt4, gemini).memory|
            == if |m| < MemoryLimit then |m| + 2 else |m| + 1
  {
    assert gemini(PromptFor(m, prompt)).Ok?;
  }

  /** The memory size after `k` answered requests from size `n`. */
  function AnsweredSize(n: nat, k: nat): nat
    decreases k
  {
    if k == 0 then n
    else AnsweredSize(if n < MemoryLimit then n + 2 else n + 1, k - 1)
  }

  /** A step that grows the memory by two below the limit and by one at
      or above it leaves the size `AnsweredSize` predicts. */
  lemma {:induction false} ReplayLength(m: seq<string>, prompts: seq<string>,
                                        step: (seq<string>, string) -> seq<string>)
    requires forall mem, prompt :: |step(mem, prompt)|
               == if |mem| < MemoryLimit then |mem| + 2 else |mem| + 1
    ensures |Replay(m, prompts, step)| == AnsweredSize(|m|, |prompts|)
    decreases |prompts|
  {
    if prompts != [] {
      ReplayLength(step(m, prompts[0]), prompts[1..], step);
    }
  }

  /** With a Gemini that always answers, a run of requests leaves the
      memory at the size `AnsweredSize` predicts. */
  lemma RunLength(m: seq<string>, prompts: seq<string>,
                  gpt4: string -> Reply, gemini: string -> Reply)
    requires NeverFails(gemini)
    ensures |RunMemory(m, prompts, gpt4, gemini)| == AnsweredSize(|m|, |prompts|)
  {
    var step := (mem, prompt) => HandleChat(mem, prompt, gpt4, gemini).memory;
    forall mem, prompt
      ensures |step(mem, prompt)| == if |mem| < MemoryLimit then |mem| + 2 else |mem| + 1
    {
      AnsweredLength(mem, prompt, gpt4, gemini);
    }
    ReplayLength(m, prompts, step);
  }

  lemma {:induction false} AnsweredSizePastLimit(n: nat, k: nat)
    requires n >= MemoryLimit
    ensures AnsweredSize(n, k) == n + k
    decreases k
  {
    if k > 0 {
      AnsweredSizePastLimit(n + 1, k - 1);
    }
  }

  /** Once the memory holds `MemoryLimit` entries or more, every answered
      request adds exactly one entry: the memory is not kept at the limit. */
  lemma GrowthPastLimit(m: seq<string>, prompts: seq<string>,
                        gpt4: string -> Reply, gemini: string -> Reply)
    requires |m| >= MemoryLimit && NeverFails(gemini)
    ensures |RunMemory(m, prompts, gpt4, gemini)| == |m| + |prompts|
  {
    RunLength(m, prompts, gpt4, gemini);
    AnsweredSizePastLimit(|m|, |prompts|);
  }

  /** From an empty memory, answered requests leave 2, 4, 6, 7, 8, ...
      entries: two per request for the first three, one per request after. */
  lemma LengthFromEmpty(prompts: seq<string>, gpt4: string -> Reply,
                        gemini: string -> Reply)
    requires NeverFails(gemini)
    ensures |RunMemory([], prompts, gpt4, gemini)|
            == if |prompts| <= 3 then 2 * |prompts| else |prompts| + 3
  {
    RunLength([], prompts, gpt4, gemini);
    AnsweredSizeFromEmpty(|prompts|);
  }

  lemma AnsweredSizeFromEmpty(k: nat)
    ensures AnsweredSize(0, k) == if k <= 3 then 2 * k else k + 3
  {
    if k > 3 {
      assert AnsweredSize(0, k) == AnsweredSize(2, k - 1);
      assert AnsweredSize(2, k - 1) == AnsweredSize(4, k - 2);
      assert AnsweredSize(4, k - 2) == AnsweredSize(6, k - 3);
      AnsweredSizePastLimit(6, k - 3);
    } else if k > 0 {
      assert AnsweredSize(0, k) == AnsweredSize(2, k - 1);
      if k > 1 {
        assert AnsweredSize(2, k - 1) == AnsweredSize(4, k - 2);
      }
    }
  }

  /** Four answered requests from an empty memory leave seven entries,
      more than `MemoryLimit`. */
  lemma MemoryOutgrowsLimit(prompts: seq<string>, gpt4: string -> Reply,
                            gemini: string -> Reply)
    requires NeverFails(gemini) && |prompts| >= 4
    ensures |RunMemory([], prompts, gpt4, gemini)| > MemoryLimit
  {
    LengthFromEmpty(prompts, gpt4, gemini);
  }
}
