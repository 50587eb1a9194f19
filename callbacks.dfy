/** The callback handler the agent registers on every model call.  It is
    told about each streamed token and forwards to its queue only the
    tokens of the model's final answer, i.e. those that follow the marker
    `TokenFilter.AnswerPrefix`. */
module Callbacks {
  import Asyncio
  import opened TokenFilter

  class FinalOutputAsyncHandler {
    /** The queue and the event belong to the caller; the handler keeps
        references to them and never replaces them. */
    const queue: Asyncio.Queue<string>
    const event: Asyncio.Event
    var lastTokens: seq<string>
    var answerReached: bool

    ghost predicate Valid()
      reads this
    {
      WellFormed(State())
    }

    /** The filter state the stream-level specification talks about. */
    ghost function State(): FilterState
      reads this
    {
      FilterState(lastTokens, answerReached)
    }

    /** Keeps the given queue and event, starts with a window of empty
        strings and the flag clear, and touches neither the queue nor the
        event. */
    constructor (queue: Asyncio.Queue<string>, event: Asyncio.Event)
      ensures Valid()
      ensures this.queue == queue && this.event == event
      ensures lastTokens == ["", "", ""] && !answerReached
      ensures queue.items == old(queue.items) && event.flag == old(event.flag)
    {
      this.queue := queue;
      this.event := event;
      lastTokens := seq(|AnswerPrefix|, _ => "");
      answerReached := false;
    }

    /** A new generation begins: the flag and the event are cleared; the
        window and the queue are left as they are. */
    method OnLlmStart()
      requires Valid()
      modifies this`answerReached, event
      ensures Valid()
      ensures !answerReached && !event.flag
      ensures lastTokens == old(lastTokens)
      ensures queue.items == old(queue.items)
    {
      answerReached := false;
      event.Clear();
    }

    /** One streamed token: slide it into the window, set the flag if the
        window now equals the marker (and drop the token), otherwise
        forward it when the flag is already set. */
    method OnLlmNewToken(token: string)
      requires Valid()
      modifies this`lastTokens, this`answerReached, queue
      ensures Valid()
      ensures State() == Step(old(State()), token)
      ensures queue.items == old(queue.items) + Emitted(old(State()), token)
      // Exactly the oldest entry is evicted.
      ensures lastTokens == old(lastTokens)[1..] + [token]
      // A token that completes the marker sets the flag and is not queued.
      ensures lastTokens == AnswerPrefix ==> answerReached && queue.items == old(queue.items)
      // Nothing is queued while the flag is clear.
      ensures !old(answerReached) ==> queue.items == old(queue.items)
      // The queue only grows, by at most this token.
      ensures queue.items == old(queue.items) || queue.items == old(queue.items) + [token]
      ensures event.flag == old(event.flag)
    {
      lastTokens := lastTokens + [token];
      if |lastTokens| > |AnswerPrefix| {
        lastTokens := lastTokens[1..];
      }
      if lastTokens == AnswerPrefix {
        answerReached := true;
        return;
      }
      if answerReached {
        queue.PutNowait(token);
      }
    }

    /** The agent finished: the event is set and nothing else changes. */
    method OnAgentFinish()
      requires Valid()
      modifies event
      ensures Valid()
      ensures event.flag
      ensures State() == old(State())
      ensures queue.items == old(queue.items)
    {
      event.Set();
    }
  }

  /** The model call streaming `tokens` to the handler, one
      `on_llm_new_token` per token: the queue gains exactly what
      `Forwarded` says, and the handler ends in the state `Run` says. */
  method FeedTokens(h: FinalOutputAsyncHandler, tokens: seq<string>)
    requires h.Valid()
    modifies h`lastTokens, h`answerReached, h.queue
    ensures h.Valid()
    ensures h.State() == Run(old(h.State()), tokens)
    ensures h.queue.items == old(h.queue.items) + Forwarded(old(h.State()), tokens)
    ensures h.event.flag == old(h.event.flag)
  {
    ghost var st0 := h.State();
    ghost var q0 := h.queue.items;
    for i := 0 to |tokens|
      invariant h.Valid()
      invariant h.State() == Run(st0, tokens[..i])
      invariant h.queue.items == q0 + Forwarded(st0, tokens[..i])
      invariant h.event.flag == old(h.event.flag)
    {
      assert tokens[..i + 1] == tokens[..i] + [tokens[i]];
      RunSnoc(st0, tokens[..i], tokens[i]);
      ForwardedSnoc(st0, tokens[..i], tokens[i]);
      h.OnLlmNewToken(tokens[i]);
    }
    assert tokens[..|tokens|] == tokens;
  }

  /** One whole generation: `on_llm_start`, then the streamed tokens.
      The reset clears the flag but not the window, so the generation's
      output is `Forwarded` from the previous window with the flag clear. */
  method Generate(h: FinalOutputAsyncHandler, tokens: seq<string>)
    requires h.Valid()
    modifies h`lastTokens, h`answerReached, h.queue, h.event
    ensures h.Valid()
    ensures !h.event.flag
    ensures h.State() == Run(FilterState(old(h.lastTokens), false), tokens)
    ensures h.queue.items
            == old(h.queue.items) + Forwarded(FilterState(old(h.lastTokens), false), tokens)
  {
    h.OnLlmStart();
    FeedTokens(h, tokens);
  }
}
