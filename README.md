# Final-answer token filter of the SQL chat agent

The chatbot answers questions about uploaded tables. It runs a LangChain SQL
agent and streams the agent's final answer, token by token, into the chat
window. The agent's intermediate text ("Thought:", "Action:", tool calls) must
not reach the chat window. That is the job of the callback handler
`FinalOutputAsyncHandler` in `utils/callbacks.py`. The model calls it once per
streamed token. It behaves as a small state machine:

- It keeps a sliding window of the last three tokens.
- When that window equals the marker `["\nFinal", " Answer", ":"]`, it sets
  the flag `answer_reached`. The token that completed the marker is dropped.
- From then on, each token is `put_nowait` on the caller's `asyncio.Queue`.
  A token that completes the marker again is still dropped.
- `on_llm_start` clears the flag and the caller's `asyncio.Event`.
  `on_agent_finish` sets the event.

The project has three files:

- `token_filter.dfy` (module `TokenFilter`) gives the stream-level
  specification.
  - `Step` and `Emitted` describe one token. `Run` and `Forwarded` fold them
    over a stream.
  - `Expected` is an independent, position-based description of the output.
    The token at position `i` is forwarded exactly when two things hold. First,
    the flag was already set, or the marker was completed at some earlier
    position. Second, the token at `i` does not itself complete the marker.
  - The lemmas connect these definitions and derive the filter's promises from
    them.
- `callbacks.dfy` (module `Callbacks`) models the handler as a class.
  - The class has the fields `lastTokens` and `answerReached`. It also holds
    references to the caller's queue and event.
  - Each hook is a method. Its contract states the new state through `Step`
    and `Emitted`, and states the hook's promises outright.
  - `FeedTokens` and `Generate` model the model call that drives the hooks:
    one `on_llm_new_token` per streamed token, after an `on_llm_start`.
- `asyncio.dfy` (module `Asyncio`) models the two asyncio objects the handler
  uses: an unbounded queue that is only ever appended to with `put_nowait`, and
  an event with `set` and `clear`.

Two behaviours are modelled exactly as the code does them, although a reader
might expect otherwise:

- **The window is not reset between generations.** One might expect
  `on_llm_start` to reset the window too. It resets only the flag and the event
  (`utils/callbacks.py:15-17`). So a marker split across two consecutive
  generations is still detected. `SplitMarkerAcrossGenerations` shows one such
  stream.
- **A later token that completes the marker is dropped.** This holds even after
  the flag is set. The early return at `utils/callbacks.py:24` comes before the
  forwarding. So an answer that contains the marker text loses the marker's
  colon. `RepeatedMarkerDropsColon` shows this for any answer token.

## Model

| member | source | states |
|---|---|---|
| TokenFilter.Initial | utils/callbacks.py:12-13 | the starting state has a window of marker length, filled with empty strings, and the flag clear |
| TokenFilter.Slide | utils/callbacks.py:19-21 | appending a token to a full window evicts exactly the oldest entry; a shorter window only grows |
| TokenFilter.Step | utils/callbacks.py:19-23 | one token keeps the window at marker length; the flag never goes back to clear; the flag goes from clear to set only when the new window equals the marker |
| TokenFilter.Emitted | utils/callbacks.py:22-26 | one token enqueues nothing or itself; it enqueues itself exactly when the flag was set and the token does not complete the marker |
| TokenFilter.Run | utils/callbacks.py:18-24 | over a whole stream, the window stays at marker length and a set flag stays set |
| TokenFilter.Forwarded | utils/callbacks.py:18-26 | a stream enqueues at most as many tokens as it has, only tokens from the stream, and nothing at all if the flag is still clear at its end |
| TokenFilter.RunAppend | utils/callbacks.py:18-24 | feeding `a` then `b` ends in the same state as feeding `a + b` |
| TokenFilter.ForwardedAppend | utils/callbacks.py:18-26 | the output of `a + b` is the output of `a` followed by the output of `b` from the state `a` left |
| TokenFilter.RunSnoc | utils/callbacks.py:18-24 | the state after `s + [t]` is one `Step` on `t` from the state after `s` |
| TokenFilter.ForwardedSnoc | utils/callbacks.py:18-26 | the output of `s + [t]` is the output of `s` followed by what `t` alone enqueues from the state after `s` |
| TokenFilter.ForwardedCons | utils/callbacks.py:18-26 | the output of `[t] + rest` is what `t` enqueues followed by the output of `rest` from the state after `t` |
| TokenFilter.RunWindow | utils/callbacks.py:19-21 | after any stream, the window holds the last three tokens of the old window followed by the stream |
| TokenFilter.WindowThenRest | utils/callbacks.py:19-21 | the window a prefix leaves, followed by the rest of the stream, is the whole stream seen from the prefix's length on |
| TokenFilter.MarkerPrefix | utils/callbacks.py:22 | whether the marker is completed at a position inside a prefix does not depend on the tokens after that prefix |
| TokenFilter.MarkerShift | utils/callbacks.py:22 | marker positions seen from the state a prefix left are the positions in the whole stream, shifted by the prefix's length |
| TokenFilter.LastMarker | utils/callbacks.py:19-22 | the window equals the marker after token `t` exactly when the three most recent tokens are the marker |
| TokenFilter.ReachedAfter | utils/callbacks.py:22-23 | after a stream, the flag is set exactly when it was set before or the marker was completed somewhere in the stream (both directions) |
| TokenFilter.ForwardedIsExpected | utils/callbacks.py:18-26 | the handler's output equals the position-based description: the tokens after the first marker completion, in order, minus every token that completes the marker again |
| TokenFilter.NoMarkerNothingForwarded | utils/callbacks.py:22-26 | a stream that never completes the marker enqueues nothing, even if some of its tokens match part of the marker |
| TokenFilter.ReachedForwardsAll | utils/callbacks.py:25-26 | once the flag is set, every token of a stream that never completes the marker again is enqueued verbatim, in order |
| TokenFilter.PrefixThenMarker | utils/callbacks.py:19-24 | leading text that never completes the marker, then the marker, enqueues nothing and leaves the flag set with the marker in the window |
| TokenFilter.AnswerFollowsMarker | utils/callbacks.py:18-26 | leading text, then the marker, then an answer enqueues exactly the answer, as long as the marker is completed nowhere else |
| TokenFilter.SplitMarkerAcrossGenerations | utils/callbacks.py:15-26 | "\nFinal" at the end of one generation plus " Answer", ":", "42" in the next enqueues "42", because the reset keeps the window |
| TokenFilter.MarkerOnly | utils/callbacks.py:19-24 | from the initial state, the marker alone enqueues nothing and leaves the flag set with the marker in the window |
| TokenFilter.AnswerWithMarker | utils/callbacks.py:22-26 | after the marker, any token `x` followed by the marker again enqueues `x`, "\nFinal" and " Answer"; the colon is dropped |
| TokenFilter.RepeatedMarkerDropsColon | utils/callbacks.py:22-26 | for any token `x`, the whole stream marker, `x`, marker enqueues `x`, "\nFinal" and " Answer" |
| Callbacks.FinalOutputAsyncHandler.constructor | utils/callbacks.py:9-13 | the handler keeps the given queue and event, starts with three empty strings in the window and the flag clear, and enqueues nothing |
| Callbacks.FinalOutputAsyncHandler.OnLlmStart | utils/callbacks.py:15-17 | clears the flag and the event; the window and the queue are unchanged |
| Callbacks.FinalOutputAsyncHandler.OnLlmNewToken | utils/callbacks.py:18-26 | the window keeps length three and evicts exactly its oldest entry; a marker-completing token sets the flag and is not enqueued; nothing is enqueued while the flag is clear; the queue only grows, by at most this token; the event is untouched |
| Callbacks.FinalOutputAsyncHandler.OnAgentFinish | utils/callbacks.py:28-29 | sets the event and changes nothing else: not the window, not the flag, not the queue |
| Callbacks.FeedTokens | utils/callbacks.py:18-26 | streaming any token sequence through the handler appends exactly `Forwarded` of it to the queue and leaves the handler in the state `Run` gives |
| Callbacks.Generate | utils/callbacks.py:15-26 | a generation (start, then tokens) appends `Forwarded` computed from the previous window with the flag clear, and leaves the event clear |

## Left out

- The callbacks' LangChain arguments (`serialized`, `prompts`, `run_id`, `parent_run_id`, `tags`, `finish`, `**kwargs`) are ignored by the code and have no counterpart in the model.
- The consumer loop in `app-langchain.py:24-38` is not modelled. It runs the agent in a blocking portal and awaits the queue until the event is set. Its point is cooperation between a thread and the event loop, which this sequential model does not capture.
- The `asyncio.Queue` is modelled as an unbounded sequence that the handler only appends to. Its `get` side and any suspension are not modelled.
- The SQL tools in `utils/tools.py`, the agent set-up in `utils/sql_agent.py` and the client set-up in `utils/open_api.py` are not modelled. They wrap LangChain, database and model calls whose code is not part of this model. `FormatBigNumbers` is not used by the agent.
- The Gradio UI, configuration, CSS and chat-history file I/O in `app-langchain.py` are not modelled.
