/** Stream-level specification of the final-answer token filter.

    The filter's whole state is a sliding window of the most recent tokens
    and the flag `answerReached`.  `Step` is what one `on_llm_new_token`
    call does to that state, `Emitted` is what it puts on the output queue,
    and `Run` / `Forwarded` fold those over a stream of tokens.

    `Expected` is an independent description of the same output, written
    by position in the stream instead of by state: token `i` is forwarded
    exactly when the marker was completed at some earlier position (or the
    flag was already set) and token `i` does not itself complete the
    marker.  `ForwardedIsExpected` proves the two agree. */
module TokenFilter {

  /** The marker that precedes the final answer (DEFAULT_ANSWER_PREFIX_TOKENS). */
  const AnswerPrefix: seq<string> := ["\nFinal", " Answer", ":"]

  datatype FilterState = FilterState(window: seq<string>, answerReached: bool)

  /** The window holds exactly as many tokens as the marker has. */
  predicate WellFormed(st: FilterState) {
    |st.window| == |AnswerPrefix|
  }

  /** The state a freshly constructed handler starts from. */
  function Initial(): (st: FilterState)
    ensures WellFormed(st) && !st.answerReached
    ensures forall i :: 0 <= i < |st.window| ==> st.window[i] == ""
  {
    FilterState(seq(|AnswerPrefix|, _ => ""), false)
  }

  /** Append the token, then evict the oldest entry if the window grew
      past the marker's length. */
  function Slide(window: seq<string>, token: string): (w: seq<string>)
    ensures |window| >= |AnswerPrefix| ==> w == window[1..] + [token]
    ensures |window| < |AnswerPrefix| ==> w == window + [token]
  {
    var grown := window + [token];
    if |grown| > |AnswerPrefix| then grown[1..] else grown
  }

  /** The state after one token. */
  function Step(st: FilterState, token: string): (next: FilterState)
    ensures WellFormed(st) ==> WellFormed(next)
    ensures st.answerReached ==> next.answerReached
    ensures next.answerReached && !st.answerReached ==> next.window == AnswerPrefix
  {
    var w := Slide(st.window, token);
    FilterState(w, st.answerReached || w == AnswerPrefix)
  }

  /** What one token puts on the output queue: nothing when it completes
      the marker (whatever the flag), itself when the flag is already set,
      nothing otherwise. */
  function Emitted(st: FilterState, token: string): (out: seq<string>)
    ensures out == [] || out == [token]
    ensures out == [token] <==> st.answerReached && Step(st, token).window != AnswerPrefix
  {
    if Slide(st.window, token) == AnswerPrefix then []
    else if st.answerReached then [token]
    else []
  }

  /** The state after a whole stream of tokens. */
  function Run(st: FilterState, tokens: seq<string>): (last: FilterState)
    ensures WellFormed(st) ==> WellFormed(last)
    ensures st.answerReached ==> last.answerReached
    decreases |tokens|
  {
    if tokens == [] then st else Run(Step(st, tokens[0]), tokens[1..])
  }

  /** Everything a stream of tokens puts on the output queue, in order.
      Nothing is forwarded by a stream that never sets the flag. */
  function Forwarded(st: FilterState, tokens: seq<string>): (out: seq<string>)
    ensures |out| <= |tokens|
    ensures forall x :: x in out ==> x in tokens
    ensures !Run(st, tokens).answerReached ==> out == []
    decreases |tokens|
  {
    if tokens == [] then []
    else Emitted(st, tokens[0]) + Forwarded(Step(st, tokens[0]), tokens[1..])
  }

  /** The token at position `i` of `tokens` makes the window equal the
      marker: the three tokens ending at `i`, counting the ones already in
      the window before the stream began, are the marker. */
  predicate MarkerEndsAt(st: FilterState, tokens: seq<string>, i: int)
    requires WellFormed(st) && 0 <= i < |tokens|
  {
    (st.window + tokens)[i + 1 .. i + 1 + |AnswerPrefix|] == AnswerPrefix
  }

  /** Whether the token at position `i` is forwarded, by position alone. */
  predicate Selected(st: FilterState, tokens: seq<string>, i: int)
    requires WellFormed(st) && 0 <= i < |tokens|
  {
    (st.answerReached || exists j :: 0 <= j < i && MarkerEndsAt(st, tokens, j))
    && !MarkerEndsAt(st, tokens, i)
  }

  /** The selected tokens, in stream order. */
  function Expected(st: FilterState, tokens: seq<string>): seq<string>
    requires WellFormed(st)
    decreases |tokens|
  {
    if tokens == [] then []
    else
      var n := |tokens| - 1;
      Expected(st, tokens[..n]) + (if Selected(st, tokens, n) then [tokens[n]] else [])
  }

  // ----- Streams split at any point -----

  lemma {:induction false} RunAppend(st: FilterState, a: seq<string>, b: seq<string>)
    ensures Run(st, a + b) == Run(Run(st, a), b)
    decreases |a|
  {
    if a == [] {
      assert a + b == b;
    } else {
      assert (a + b)[0] == a[0];
      assert (a + b)[1..] == a[1..] + b;
      RunAppend(Step(st, a[0]), a[1..], b);
    }
  }

  /** Feeding `a` then `b` forwards what `a` forwards, then what `b`
      forwards from the state `a` left behind. */
  lemma {:induction false} ForwardedAppend(st: FilterState, a: seq<string>, b: seq<string>)
    ensures Forwarded(st, a + b) == Forwarded(st, a) + Forwarded(Run(st, a), b)
    decreases |a|
  {
    if a == [] {
      assert a + b == b;
    } else {
      assert (a + b)[0] == a[0];
      assert (a + b)[1..] == a[1..] + b;
      ForwardedAppend(Step(st, a[0]), a[1..], b);
    }
  }

  lemma {:induction false} RunSnoc(st: FilterState, s: seq<string>, t: string)
    ensures Run(st, s + [t]) == Step(Run(st, s), t)
  {
    RunAppend(st, s, [t]);
    assert [t][1..] == [];
  }

  lemma {:induction false} ForwardedSnoc(st: FilterState, s: seq<string>, t: string)
    ensures Forwarded(st, s + [t]) == Forwarded(st, s) + Emitted(Run(st, s), t)
  {
    ForwardedAppend(st, s, [t]);
    assert [t][1..] == [];
  }

  /** The first token of a stream is handled first. */
  lemma ForwardedCons(st: FilterState, t: string, rest: seq<string>)
    ensures Forwarded(st, [t] + rest) == Emitted(st, t) + Forwarded(Step(st, t), rest)
  {
    assert ([t] + rest)[0] == t;
    assert ([t] + rest)[1..] == rest;
  }

  // ----- The window -----

  /** After any stream the window is the last `|AnswerPrefix|` tokens seen,
      counting the ones it started with. */
  lemma {:induction false} RunWindow(st: FilterState, tokens: seq<string>)
    requires WellFormed(st)
    ensures Run(st, tokens).window == (st.window + tokens)[|tokens|..]
    decreases |tokens|
  {
    if tokens != [] {
      var next := Step(st, tokens[0]);
      assert next.window + tokens[1..] == (st.window + tokens)[1..];
      RunWindow(next, tokens[1..]);
    }
  }

  /** A marker position inside a prefix does not depend on what follows. */
  lemma MarkerPrefix(st: FilterState, a: seq<string>, b: seq<string>, j: int)
    requires WellFormed(st) && 0 <= j < |a|
    ensures MarkerEndsAt(st, a + b, j) <==> MarkerEndsAt(st, a, j)
  {
  }

  /** A slice of a suffix is a slice of the whole sequence. */
  lemma SliceOfSuffix(x: seq<string>, k: int, lo: int, hi: int)
    requires 0 <= k <= |x| && 0 <= lo <= hi <= |x| - k
    ensures x[k..][lo..hi] == x[k + lo .. k + hi]
  {
  }

  /** Dropping the first `|a|` entries of `x + a` and appending `b` is
      dropping them from `x + (a + b)`. */
  lemma SuffixThenRest(x: seq<string>, a: seq<string>, b: seq<string>)
    ensures (x + a)[|a|..] + b == (x + (a + b))[|a|..]
  {
    assert (x + a) + b == x + (a + b);
  }

  /** The window a prefix leaves, followed by the rest of the stream, is the
      whole stream seen from the prefix's length on. */
  lemma WindowThenRest(st: FilterState, a: seq<string>, b: seq<string>)
    requires WellFormed(st)
    ensures Run(st, a).window + b == (st.window + (a + b))[|a|..]
  {
    RunWindow(st, a);
    SuffixThenRest(st.window, a, b);
  }

  /** Marker positions seen from the state a prefix left behind are the
      same positions in the whole stream, shifted by the prefix's length. */
  lemma MarkerShift(st: FilterState, a: seq<string>, b: seq<string>, j: int)
    requires WellFormed(st) && 0 <= j < |b|
    ensures MarkerEndsAt(Run(st, a), b, j) <==> MarkerEndsAt(st, a + b, |a| + j)
  {
    var whole := st.window + (a + b);
    var rest := Run(st, a).window + b;
    WindowThenRest(st, a, b);
    SliceOfSuffix(whole, |a|, j + 1, j + 1 + |AnswerPrefix|);
    assert rest[j + 1 .. j + 1 + |AnswerPrefix|]
           == whole[|a| + j + 1 .. |a| + j + 1 + |AnswerPrefix|];
  }

  /** The token appended to `s` completes the marker exactly when its
      position in `s + [t]` is a marker position. */
  lemma LastMarker(st: FilterState, s: seq<string>, t: string)
    requires WellFormed(st)
    ensures Step(Run(st, s), t).window == AnswerPrefix <==> MarkerEndsAt(st, s + [t], |s|)
  {
    RunWindow(st, s);
    assert Step(Run(st, s), t).window == (st.window + (s + [t]))[|s| + 1 ..];
  }

  // ----- The flag -----

  /** The flag is set after a stream exactly when it was set before or the
      marker was completed somewhere in the stream. */
  lemma {:induction false} ReachedAfter(st: FilterState, tokens: seq<string>)
    requires WellFormed(st)
    ensures Run(st, tokens).answerReached
            <==> st.answerReached || exists j :: 0 <= j < |tokens| && MarkerEndsAt(st, tokens, j)
    decreases |tokens|
  {
    if tokens != [] {
      var n := |tokens| - 1;
      var s, t := tokens[..n], tokens[n];
      assert tokens == s + [t];
      ReachedAfter(st, s);
      RunSnoc(st, s, t);
      LastMarker(st, s, t);
      forall j | 0 <= j < n
        ensures MarkerEndsAt(st, tokens, j) <==> MarkerEndsAt(st, s, j)
      {
        MarkerPrefix(st, s, [t], j);
      }
    }
  }

  // ----- What is forwarded -----

  /** The state-machine output equals the position-based description. */
  lemma {:induction false} ForwardedIsExpected(st: FilterState, tokens: seq<string>)
    requires WellFormed(st)
    ensures Forwarded(st, tokens) == Expected(st, tokens)
    decreases |tokens|
  {
    if tokens != [] {
      var n := |tokens| - 1;
      var s, t := tokens[..n], tokens[n];
      assert tokens == s + [t];
      ForwardedIsExpected(st, s);
      ForwardedSnoc(st, s, t);
      ReachedAfter(st, s);
      LastMarker(st, s, t);
      forall j | 0 <= j < n
        ensures MarkerEndsAt(st, tokens, j) <==> MarkerEndsAt(st, s, j)
      {
        MarkerPrefix(st, s, [t], j);
      }
    }
  }

  /** A stream that never completes the marker forwards nothing, even when
      some of its tokens match a prefix of the marker. */
  lemma NoMarkerNothingForwarded(st: FilterState, tokens: seq<string>)
    requires WellFormed(st) && !st.answerReached
    requires forall j :: 0 <= j < |tokens| ==> !MarkerEndsAt(st, tokens, j)
    ensures Forwarded(st, tokens) == []
  {
    ReachedAfter(st, tokens);
  }

  /** Once the flag is set, every token that does not complete the marker
      again is forwarded verbatim. */
  lemma {:induction false} ReachedForwardsAll(st: FilterState, tokens: seq<string>)
    requires WellFormed(st) && st.answerReached
    requires forall j :: 0 <= j < |tokens| ==> !MarkerEndsAt(st, tokens, j)
    ensures Forwarded(st, tokens) == tokens
    decreases |tokens|
  {
    if tokens != [] {
      var n := |tokens| - 1;
      var s, t := tokens[..n], tokens[n];
      assert tokens == s + [t];
      forall j | 0 <= j < n
        ensures !MarkerEndsAt(st, s, j)
      {
        MarkerPrefix(st, s, [t], j);
      }
      ReachedForwardsAll(st, s);
      ForwardedSnoc(st, s, t);
      LastMarker(st, s, t);
    }
  }

  /** Leading text that never completes the marker, followed by the marker,
      forwards nothing and leaves the flag set with the marker in the
      window. */
  lemma PrefixThenMarker(st: FilterState, pre: seq<string>)
    requires WellFormed(st) && !st.answerReached
    requires forall j :: 0 <= j < |pre| + 2 ==> !MarkerEndsAt(st, pre + AnswerPrefix[..2], j)
    ensures Forwarded(st, pre + AnswerPrefix) == []
    ensures Run(st, pre + AnswerPrefix) == FilterState(AnswerPrefix, true)
  {
    var p2 := pre + AnswerPrefix[..2];
    assert pre + AnswerPrefix == p2 + [":"];
    // The leading text and the first two marker tokens forward nothing.
    NoMarkerNothingForwarded(st, p2);
    // The colon completes the marker, sets the flag, and is not forwarded.
    RunWindow(st, p2);
    assert Run(st, p2).window == (st.window + p2)[|p2|..];
    assert Run(st, p2).window[1..] == AnswerPrefix[..2];
    assert Step(Run(st, p2), ":").window == AnswerPrefix;
    RunSnoc(st, p2, ":");
    ForwardedSnoc(st, p2, ":");
  }

  /** A stream made of some leading text, the marker, and an answer
      forwards exactly the answer, provided the marker is completed nowhere
      else in the stream (the leading text may still match part of it). */
  lemma AnswerFollowsMarker(st: FilterState, pre: seq<string>, answer: seq<string>)
    requires WellFormed(st) && !st.answerReached
    requires forall j :: 0 <= j < |pre + AnswerPrefix + answer| && j != |pre| + 2 ==>
               !MarkerEndsAt(st, pre + AnswerPrefix + answer, j)
    ensures Forwarded(st, pre + AnswerPrefix + answer) == answer
  {
    var s := pre + AnswerPrefix + answer;
    var m := pre + AnswerPrefix;
    var p2 := pre + AnswerPrefix[..2];
    assert s == p2 + ([":"] + answer);
    assert s == m + answer;
    // Phase 1: up to and including the marker, nothing is forwarded.
    forall j | 0 <= j < |pre| + 2
      ensures !MarkerEndsAt(st, p2, j)
    {
      MarkerPrefix(st, p2, [":"] + answer, j);
    }
    PrefixThenMarker(st, pre);
    // Phase 2: every answer token is forwarded.
    forall j | 0 <= j < |answer|
      ensures !MarkerEndsAt(FilterState(AnswerPrefix, true), answer, j)
    {
      MarkerShift(st, m, answer, j);
    }
    ReachedForwardsAll(FilterState(AnswerPrefix, true), answer);
    ForwardedAppend(st, m, answer);
  }

  /** The marker split across two generations is still detected: the
      reset between generations clears the flag but keeps the window. */
  lemma SplitMarkerAcrossGenerations()
    ensures Forwarded(FilterState(Run(Initial(), ["\nFinal"]).window, false), [" Answer", ":", "42"])
            == ["42"]
  {
    var st := FilterState(Run(Initial(), ["\nFinal"]).window, false);
    RunWindow(Initial(), ["\nFinal"]);
    assert st == FilterState(["", "", "\nFinal"], false);
    var s1 := Step(st, " Answer");
    assert s1 == FilterState(["", "\nFinal", " Answer"], false);
    var s2 := Step(s1, ":");
    assert s2 == FilterState(AnswerPrefix, true);
    ForwardedCons(st, " Answer", [":", "42"]);
    ForwardedCons(s1, ":", ["42"]);
    ForwardedCons(s2, "42", []);
    assert Forwarded(Step(s2, "42"), []) == [];
  }

  /** The marker alone forwards nothing and leaves the flag set with the
      marker in the window. */
  lemma MarkerOnly()
    ensures Forwarded(Initial(), AnswerPrefix) == []
    ensures Run(Initial(), AnswerPrefix) == FilterState(AnswerPrefix, true)
  {
    var s0 := Step(Initial(), "\nFinal");
    assert s0 == FilterState(["", "", "\nFinal"], false);
    var s1 := Step(s0, " Answer");
    assert s1 == FilterState(["", "\nFinal", " Answer"], false);
    var s2 := Step(s1, ":");
    assert s2 == FilterState(AnswerPrefix, true);
    assert AnswerPrefix == ["\nFinal"] + ([" Answer"] + [":"]);
    ForwardedCons(Initial(), "\nFinal", [" Answer", ":"]);
    ForwardedCons(s0, " Answer", [":"]);
    ForwardedCons(s1, ":", []);
    RunAppend(Initial(), ["\nFinal"], [" Answer", ":"]);
    RunAppend(s0, [" Answer"], [":"]);
  }

  /** After the marker, any token `x` and then a second marker forward `x`
      and the second marker's first two tokens. */
  lemma AnswerWithMarker(x: string)
    ensures Forwarded(FilterState(AnswerPrefix, true), [x] + AnswerPrefix)
            == [x, "\nFinal", " Answer"]
  {
    var st := FilterState(AnswerPrefix, true);
    var s := [x, "\nFinal", " Answer"];
    assert [x] + AnswerPrefix == s + [":"];
    // None of `x`, "\nFinal", " Answer" completes the marker again ...
    forall j | 0 <= j < |s|
      ensures !MarkerEndsAt(st, s, j)
    {
      var w := (AnswerPrefix + s)[j + 1 .. j + 4];
      if j == 0 {
        assert w[0] == " Answer";
      } else if j == 1 {
        assert w[0] == ":";
      } else {
        assert w[1] == "\nFinal";
      }
    }
    ReachedForwardsAll(st, s);
    // ... and the colon does, so it is dropped.
    assert (AnswerPrefix + (s + [":"]))[4..] == AnswerPrefix;
    LastMarker(st, s, ":");
    assert Step(Run(st, s), ":").window == AnswerPrefix;
    assert Emitted(Run(st, s), ":") == [];
    ForwardedSnoc(st, s, ":");
    assert Forwarded(st, s + [":"]) == s + [];
  }

  /** A second occurrence of the marker inside the answer loses only its
      last token: the first two are forwarded, the colon is dropped. */
  lemma RepeatedMarkerDropsColon(x: string)
    ensures Forwarded(Initial(), AnswerPrefix + [x] + AnswerPrefix)
            == [x, "\nFinal", " Answer"]
  {
    var tail := [x] + AnswerPrefix;
    assert AnswerPrefix + [x] + AnswerPrefix == AnswerPrefix + tail;
    ForwardedAppend(Initial(), AnswerPrefix, tail);
    MarkerOnly();
    AnswerWithMarker(x);
    assert Forwarded(Initial(), AnswerPrefix + tail) == [] + [x, "\nFinal", " Answer"];
  }
}
