/** The MCP tool server: the wait-for-reply loop of `speech_response`, the
    `get_user_messages` handler and the dispatch of a tool call to its handler. */
module TalkServer {
  import opened Support

  /** The longest wait for a reply, in milliseconds (3000 seconds). */
  const MaxWaitMs: int := 3000000
  /** The period of the polling interval, in milliseconds. */
  const PollIntervalMs: int := 2000
  const TimeoutReply := "No response from user within timeout period"
  const FailurePrefix := "Failed to send text: "
  const UnknownToolPrefix := "Unknown tool: "

  /** What one poll of the user-messages route produced: the texts of the returned
      messages (none when the body has no `messages`), or the failure it threw. */
  datatype Poll = Fetched(texts: seq<string>) | PollFailed(reason: string)

  /** The state of one pending `speech_response` call. */
  datatype WaitState = Waiting(start: int) | Resolved(reply: string) | TimedOut

  /** The inputs of one interval tick: the clock reading and the poll's outcome. */
  datatype TickInput = TickInput(now: int, poll: Poll)

  /** `texts.join("\n")`: no texts give the empty string, the first text starts the result,
      the last ends it, and consecutive texts are separated by a line break. */
  function Join(texts: seq<string>): (r: string)
    ensures texts == [] ==> r == ""
    ensures |texts| > 0 ==> texts[0] <= r
    ensures |texts| > 0 ==> |texts[|texts| - 1]| <= |r| && r[|r| - |texts[|texts| - 1]|..] == texts[|texts| - 1]
    ensures |texts| > 1 ==> '\n' in r
  {
    if |texts| == 0 then ""
    else if |texts| == 1 then texts[0]
    else texts[0] + "\n" + Join(texts[1..])
  }

  /** Splitting at every line break: the inverse of `Join` for texts without line breaks. */
  function SplitLines(s: string): (r: seq<string>)
    ensures |r| >= 1
    ensures forall k :: 0 <= k < |r| ==> '\n' !in r[k]
  {
    if |s| == 0 then [""]
    else if s[0] == '\n' then [""] + SplitLines(s[1..])
    else
      var rest := SplitLines(s[1..]);
      [[s[0]] + rest[0]] + rest[1..]
  }

  lemma {:induction false} SplitLinesNoBreak(s: string)
    requires '\n' !in s
    ensures SplitLines(s) == [s]
  {
    if |s| > 0 {
      assert s[0] in s;
      assert '\n' !in s[1..] by {
        forall k | 0 <= k < |s| - 1 ensures s[1..][k] != '\n' {
          assert s[1..][k] == s[k + 1];
        }
      }
      SplitLinesNoBreak(s[1..]);
      assert [s[0]] + s[1..] == s;
    }
  }

  lemma {:induction false} SplitLinesAfterLine(a: string, b: string)
    requires '\n' !in a
    ensures SplitLines(a + "\n" + b) == [a] + SplitLines(b)
  {
    if |a| == 0 {
      assert a + "\n" + b == "\n" + b;
      assert ("\n" + b)[1..] == b;
    } else {
      assert a[0] in a;
      assert '\n' !in a[1..] by {
        forall k | 0 <= k < |a| - 1 ensures a[1..][k] != '\n' {
          assert a[1..][k] == a[k + 1];
        }
      }
      SplitLinesAfterLine(a[1..], b);
      assert (a + "\n" + b)[1..] == a[1..] + "\n" + b;
      assert [a[0]] + a[1..] == a;
    }
  }

  /** No reply is lost in the join: when no text holds a line break, the joined reply
      splits back into exactly the texts that were polled, in their order. */
  lemma {:induction false} JoinSplitRoundTrip(texts: seq<string>)
    requires |texts| > 0
    requires forall k :: 0 <= k < |texts| ==> '\n' !in texts[k]
    ensures SplitLines(Join(texts)) == texts
  {
    if |texts| == 1 {
      SplitLinesNoBreak(texts[0]);
    } else {
      JoinSplitRoundTrip(texts[1..]);
      SplitLinesAfterLine(texts[0], Join(texts[1..]));
      assert [texts[0]] + texts[1..] == texts;
    }
  }

  lemma JoinKeepsTexts(texts: seq<string>)
    ensures |texts| > 0 && (forall k :: 0 <= k < |texts| ==> '\n' !in texts[k]) ==>
      SplitLines(Join(texts)) == texts
  {
    if |texts| > 0 && forall k :: 0 <= k < |texts| ==> '\n' !in texts[k] {
      JoinSplitRoundTrip(texts);
    }
  }

  /** Whether a tick ends the wait that began at `start`: the wait has run strictly longer
      than the limit, or the poll returned at least one message. */
  predicate Decisive(start: int, t: TickInput)
  {
    t.now - start > MaxWaitMs || (t.poll.Fetched? && |t.poll.texts| > 0)
  }

  /** One run of the interval callback. The timeout is checked before polling; a poll with
      messages resolves with their texts joined by line breaks; an empty poll or a failed one
      keeps waiting. Once the wait is over the interval is cleared, so a later tick changes nothing. */
  function Tick(s: WaitState, t: TickInput): (r: WaitState)
    ensures !s.Waiting? ==> r == s
    ensures s.Waiting? ==> (r == s <==> !Decisive(s.start, t))
  {
    match s
    case Waiting(start) =>
      if t.now - start > MaxWaitMs then TimedOut
      else if t.poll.Fetched? && |t.poll.texts| > 0 then Resolved(Join(t.poll.texts))
      else s
    case _ => s
  }

  /** The timeout wins over any poll: past the limit, the outcome does not depend on the poll. */
  lemma TimeoutBeforePoll(start: int, now: int, p: Poll, q: Poll)
    requires now - start > MaxWaitMs
    ensures Tick(Waiting(start), TickInput(now, p)) == TimedOut
    ensures Tick(Waiting(start), TickInput(now, p)) == Tick(Waiting(start), TickInput(now, q))
  {
  }

  /** The limit is strict: a tick exactly `MaxWaitMs` after the start still polls, and
      resolves when the poll has messages. */
  lemma DeadlineTickStillPolls(start: int, texts: seq<string>)
    requires |texts| > 0
    ensures Tick(Waiting(start), TickInput(start + MaxWaitMs, Fetched(texts))) == Resolved(Join(texts))
    ensures Tick(Waiting(start), TickInput(start + MaxWaitMs, Fetched([]))) == Waiting(start)
  {
  }

  /** The state after a sequence of ticks. */
  function Run(s: WaitState, ticks: seq<TickInput>): WaitState
  {
    if ticks == [] then s else Tick(Run(s, ticks[..|ticks| - 1]), ticks[|ticks| - 1])
  }

  /** A finished wait stays finished: its one result is never replaced by a later tick. */
  lemma {:induction false} RunAfterTerminal(s: WaitState, ticks: seq<TickInput>, i: nat)
    requires i <= |ticks|
    requires !Run(s, ticks[..i]).Waiting?
    ensures Run(s, ticks) == Run(s, ticks[..i])
  {
    if i < |ticks| {
      var init := ticks[..|ticks| - 1];
      assert init[..i] == ticks[..i];
      RunAfterTerminal(s, init, i);
      assert ticks[..|ticks|] == ticks;
    } else {
      assert ticks[..i] == ticks;
    }
  }

  /** While no tick has been decisive the call keeps waiting with its original start. */
  lemma {:induction false} RunWhileUndecided(start: int, ticks: seq<TickInput>)
    requires forall k :: 0 <= k < |ticks| ==> !Decisive(start, ticks[k])
    ensures Run(Waiting(start), ticks) == Waiting(start)
  {
    if ticks != [] {
      RunWhileUndecided(start, ticks[..|ticks| - 1]);
    }
  }

  /** The first decisive tick decides the outcome: timed out when it is past the limit,
      otherwise resolved with the joined texts of its poll. */
  lemma {:induction false} FirstDecisiveTickDecides(start: int, ticks: seq<TickInput>, j: nat)
    requires j < |ticks|
    requires forall k :: 0 <= k < j ==> !Decisive(start, ticks[k])
    requires Decisive(start, ticks[j])
    ensures Run(Waiting(start), ticks) ==
      if ticks[j].now - start > MaxWaitMs then TimedOut else Resolved(Join(ticks[j].poll.texts))
  {
    var upTo := ticks[..j + 1];
    assert upTo[..j] == ticks[..j];
    RunWhileUndecided(start, ticks[..j]);
    RunAfterTerminal(Waiting(start), ticks, j + 1);
  }

  /** Without any reply, a wait times out exactly when some tick comes strictly after the
      limit, and otherwise is still waiting. */
  lemma {:induction false} NoReplyOutcome(start: int, ticks: seq<TickInput>)
    requires forall k :: 0 <= k < |ticks| ==> !(ticks[k].poll.Fetched? && |ticks[k].poll.texts| > 0)
    ensures Run(Waiting(start), ticks) ==
      if exists k :: 0 <= k < |ticks| && ticks[k].now - start > MaxWaitMs then TimedOut else Waiting(start)
  {
    if exists k :: 0 <= k < |ticks| && ticks[k].now - start > MaxWaitMs {
      var w :| 0 <= w < |ticks| && ticks[w].now - start > MaxWaitMs;
      var j := 0;
      while ticks[j].now - start <= MaxWaitMs
        invariant 0 <= j <= w
        invariant forall k :: 0 <= k < j ==> ticks[k].now - start <= MaxWaitMs
        decreases w - j
      {
        j := j + 1;
      }
      FirstDecisiveTickDecides(start, ticks, j);
    } else {
      RunWhileUndecided(start, ticks);
    }
  }

  /** A wait polled every `PollIntervalMs` from its start with no reply in between: the
      1500th tick, exactly at the limit, still waits, and the 1501st times out. */
  lemma {:induction false} RegularTicksTimeOut(start: int, ticks: seq<TickInput>)
    requires forall k :: 0 <= k < |ticks| ==> ticks[k].now == start + PollIntervalMs * (k + 1)
    requires forall k :: 0 <= k < |ticks| ==> !(ticks[k].poll.Fetched? && |ticks[k].poll.texts| > 0)
    ensures Run(Waiting(start), ticks) == if |ticks| > MaxWaitMs / PollIntervalMs then TimedOut else Waiting(start)
  {
    NoReplyOutcome(start, ticks);
    if |ticks| > MaxWaitMs / PollIntervalMs {
      var k := MaxWaitMs / PollIntervalMs;
      assert ticks[k].now - start > MaxWaitMs;
    }
  }

  /** The interval of `speechResponseToolHandler`: run ticks until the wait is over, then
      stop. Returns the final state and how many ticks ran. */
  method WaitForReply(start: int, ticks: seq<TickInput>) returns (outcome: WaitState, used: nat)
    ensures used <= |ticks|
    ensures outcome == Run(Waiting(start), ticks)
    ensures outcome == Run(Waiting(start), ticks[..used])
    ensures outcome.Waiting? ==> outcome == Waiting(start) && used == |ticks|
    ensures !outcome.Waiting? ==> 0 < used && Decisive(start, ticks[used - 1])
    ensures forall k :: 0 <= k < used - 1 ==> !Decisive(start, ticks[k])
  {
    outcome := Waiting(start);
    used := 0;
    while used < |ticks| && outcome.Waiting?
      invariant used <= |ticks|
      invariant outcome == Run(Waiting(start), ticks[..used])
      invariant outcome.Waiting? ==> outcome == Waiting(start)
      invariant outcome.Waiting? ==> forall k :: 0 <= k < used ==> !Decisive(start, ticks[k])
      invariant !outcome.Waiting? ==> 0 < used && Decisive(start, ticks[used - 1])
      invariant forall k :: 0 <= k < used - 1 ==> !Decisive(start, ticks[k])
    {
      assert ticks[..used + 1][..used] == ticks[..used];
      outcome := Tick(outcome, ticks[used]);
      used := used + 1;
    }
    if outcome.Waiting? {
      assert ticks[..used] == ticks;
    } else {
      RunAfterTerminal(Waiting(start), ticks, used);
    }
  }

  /** What a finished wait hands back as the tool result; `None` while still waiting. */
  function ReplyOf(s: WaitState): (r: Option<string>)
    ensures r.None? <==> s.Waiting?
    ensures s.Resolved? ==> r == Some(s.reply)
    ensures s.TimedOut? ==> r == Some(TimeoutReply)
  {
    match s
    case Waiting(_) => None
    case Resolved(reply) => Some(reply)
    case TimedOut => Some(TimeoutReply)
  }

  /** How a handler ended: with a result string, or by throwing an error with this message. */
  datatype HandlerOutcome = Returned(text: string) | Threw(message: string)

  /** `speechResponseToolHandler`: a failed POST of the text throws; otherwise the reply,
      or the timeout sentinel, once the wait is over (`None` while it is still pending). */
  method SpeechResponseToolHandler(postFailure: Option<string>, start: int, ticks: seq<TickInput>)
    returns (r: Option<HandlerOutcome>)
    ensures postFailure.Some? ==> r == Some(Threw(postFailure.value))
    ensures postFailure.None? ==>
      var outcome := Run(Waiting(start), ticks);
      && (outcome.Waiting? <==> r.None?)
      && (outcome.Resolved? ==> r == Some(Returned(outcome.reply)))
      && (outcome.TimedOut? ==> r == Some(Returned(TimeoutReply)))
  {
    if postFailure.Some? {
      return Some(Threw(postFailure.value));
    }
    var outcome, _ := WaitForReply(start, ticks);
    var reply := ReplyOf(outcome);
    r := if reply.Some? then Some(Returned(reply.value)) else None;
  }

  /** `getUserMessagesToolHandler`: one poll; its texts joined by line breaks, or its failure thrown. */
  function GetUserMessagesToolHandler(fetch: Poll): (r: HandlerOutcome)
    ensures r.Threw? <==> fetch.PollFailed?
    ensures fetch.Fetched? ==> r == Returned(Join(fetch.texts))
    ensures fetch.Fetched? && fetch.texts == [] ==> r == Returned("")
    ensures fetch.Fetched? && |fetch.texts| > 0 && (forall k :: 0 <= k < |fetch.texts| ==> '\n' !in fetch.texts[k])
      ==> SplitLines(r.text) == fetch.texts
  {
    match fetch
    case Fetched(texts) =>
      JoinKeepsTexts(texts);
      Returned(Join(texts))
    case PollFailed(reason) => Threw(reason)
  }

  /** The tools this server offers. */
  datatype Tool = SpeechResponse | GetUserMessages

  function ToolNamed(name: string): (r: Option<Tool>)
    ensures r == Some(SpeechResponse) <==> name == "speech_response"
    ensures r == Some(GetUserMessages) <==> name == "get_user_messages"
  {
    if name == "speech_response" then Some(SpeechResponse)
    else if name == "get_user_messages" then Some(GetUserMessages)
    else None
  }

  /** One `text` content item of a tool result. */
  datatype TextContent = TextContent(text: string)

  datatype ToolResult = ToolResult(content: seq<TextContent>, isError: bool)

  /** The `CallToolRequest` handler: dispatch by name; an unknown name or a thrown error
      becomes an error result whose text starts with "Failed to send text: ", and a returned
      string becomes the single text content item. `outcomeOf` gives what each handler did. */
  function CallTool(name: string, outcomeOf: Tool -> HandlerOutcome): (r: ToolResult)
    ensures |r.content| == 1
    ensures r.isError <==> ToolNamed(name).None? || outcomeOf(ToolNamed(name).value).Threw?
    ensures r.isError ==> FailurePrefix <= r.content[0].text
    ensures ToolNamed(name).None? ==> r.content[0].text == FailurePrefix + UnknownToolPrefix + name
    ensures !r.isError ==> r.content[0].text == outcomeOf(ToolNamed(name).value).text
  {
    var outcome :=
      match ToolNamed(name)
      case Some(tool) => outcomeOf(tool)
      case None => Threw(UnknownToolPrefix + name);
    match outcome
    case Returned(text) => ToolResult([TextContent(text)], false)
    case Threw(message) => ToolResult([TextContent(FailurePrefix + message)], true)
  }
}
