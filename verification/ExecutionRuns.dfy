/** The retry loop of a request, pass by pass, on values. */
module ExecutionRuns {
  import opened Results
  import opened Backoffs
  import opened NetworkState

  datatype Failure =
    | Grpc(code: int, message: string)
    | Http
    | Other

  /** What a response asks for. */
  datatype ResponseState = Retry | Finished | Error

  datatype Outcome =
    | Failed(failure: Failure)
    | Answered(state: ResponseState, status: Option<string>)

  /** What the environment supplies to one pass, with the clock readings in the order they are made. */
  datatype Pass = Pass(
    checkTime: real, selectTime: real, key: Option<string>, draw: Draw, built: bool,
    sendTime: real, outcome: Outcome, doneTime: real)

  datatype Limits = Limits(maxAttempts: int, minBackoff: real, maxBackoff: real, deadline: Option<real>)

  /** The error kept for the final message. */
  datatype Problem = Rpc(failure: Failure) | Status(text: string)

  datatype Ending =
    | Returned
    | TimedOut
    | NoNode(error: SelectError)
    | NotBuilt
    | Threw(failure: Failure)
    | StatusError
    | OutOfAttempts(last: Option<Problem>)
    | Unfinished

  datatype Event<N> =
    | Sent(node: N, time: real)
    | BackedOff(node: N, time: real, wait: real, failure: Failure)
    | Replied(node: N, state: ResponseState, status: Option<string>)
    | Slept(ms: real)

  const TIMEOUT := 17
  const UNAVAILABLE := 14
  const RESOURCE_EXHAUSTED := 8
  const INTERNAL := 13

  // ----- which failures are retried

  predicate Alphanumeric(c: char)
  {
    '0' <= c <= '9' || 'a' <= c <= 'z' || 'A' <= c <= 'Z'
  }

  predicate WordChar(c: char)
  {
    Alphanumeric(c) || c == '_'
  }

  function Lower(c: char): char
  {
    if 'A' <= c <= 'Z' then c - 'A' + 'a' else c
  }

  predicate Spells(text: string, i: nat, word: string)
  {
    i + |word| <= |text| && forall k | 0 <= k < |word| :: Lower(text[i + k]) == word[k]
  }

  /** The two words `rst` and `stream` around one separator, between word boundaries, in any case. */
  predicate RstStreamAt(text: string, i: nat)
  {
    && i + 10 <= |text|
    && Spells(text, i, "rst") && !Alphanumeric(text[i + 3]) && Spells(text, i + 4, "stream")
    && (i > 0 ==> !WordChar(text[i - 1])) && (i + 10 < |text| ==> !WordChar(text[i + 10]))
  }

  predicate RstStream(text: string)
  {
    exists i | 0 <= i < |text| :: RstStreamAt(text, i)
  }

  predicate Retryable(f: Failure)
  {
    match f
    case Grpc(code, message) =>
      code == TIMEOUT || code == UNAVAILABLE || code == RESOURCE_EXHAUSTED || (code == INTERNAL && RstStream(message))
    case Http => true
    case Other => false
  }

  lemma SpellsInside(text: string, i: nat, word: string, j: nat, part: string)
    requires i + |word| <= |text| && (forall k | 0 <= k < |word| :: text[i + k] == word[k]) && Spells(word, j, part)
    ensures Spells(text, i + j, part)
  {
    forall k | 0 <= k < |part| ensures Lower(text[i + j + k]) == part[k] {
      assert text[i + (j + k)] == word[j + k];
    }
  }

  /** In capitals or not, RST and STREAM with one character between them that is neither a letter nor a digit. */
  predicate ResetWord(word: string)
  {
    |word| == 10 && Spells(word, 0, "rst") && !Alphanumeric(word[3]) && Spells(word, 4, "stream")
  }

  /** The message is the word with texts around it that do not run on into it. */
  ghost predicate Around(message: string, before: string, word: string, after: string)
  {
    && message == before + word + after
    && (before == "" || !WordChar(before[|before| - 1])) && (after == "" || !WordChar(after[0]))
  }

  lemma ResetFound(message: string, before: string, word: string, after: string)
    requires ResetWord(word) && Around(message, before, word, after)
    ensures RstStream(message)
  {
    var i := |before|;
    assert forall k | 0 <= k < |word| :: message[i + k] == word[k];
    SpellsInside(message, i, word, 0, "rst");
    SpellsInside(message, i, word, 4, "stream");
    assert message[i + 3] == word[3];
    assert i > 0 ==> message[i - 1] == before[i - 1];
    assert i + 10 < |message| ==> message[i + 10] == after[0];
    assert RstStreamAt(message, i);
  }

  lemma ResetTaken(message: string) returns (before: string, word: string, after: string)
    requires RstStream(message)
    ensures ResetWord(word) && Around(message, before, word, after)
  {
    var i :| 0 <= i < |message| && RstStreamAt(message, i);
    before, word, after := message[..i], message[i..i + 10], message[i + 10..];
    assert message == before + word + after;
    SpellsOut(message, i, word, 0, "rst");
    SpellsOut(message, i, word, 4, "stream");
  }

  lemma SpellsOut(text: string, i: nat, word: string, j: nat, part: string)
    requires i + |word| <= |text| && word == text[i..i + |word|] && j + |part| <= |word| && Spells(text, i + j, part)
    ensures Spells(word, j, part)
  {
    forall k | 0 <= k < |part| ensures Lower(word[j + k]) == part[k] {
      assert word[j + k] == text[i + j + k];
    }
  }

  /**
   A gRPC error is retried exactly when its code is 8, 14 or 17, or it is 13 and its message holds
   RST_STREAM, in any case and with any such separator, as a word of its own.
   */
  lemma RetriedIff(code: int, message: string)
    ensures Retryable(Grpc(code, message)) <==>
            || code in {8, 14, 17}
            || (code == 13 && exists before, word, after :: ResetWord(word) && Around(message, before, word, after))
  {
    if RstStream(message) {
      var before, word, after := ResetTaken(message);
    }
    forall before, word, after | ResetWord(word) && Around(message, before, word, after) ensures RstStream(message) {
      ResetFound(message, before, word, after);
    }
  }

  /** The wait before the pass after `attempt`. */
  function Delay(attempt: nat, minBackoff: real, maxBackoff: real): real
  {
    MinReal(Doubled(minBackoff, attempt).Floor as real, maxBackoff)
  }

  // ----- one pass

  datatype Verdict = Continue(last: Option<Problem>) | Stop(ending: Ending)

  datatype PassResult<N> = PassResult(net: Net<N>, events: seq<Event<N>>, verdict: Verdict)

  /** The request goes to a node that is ready. */
  function Exchange<N(==)>(s: Net<N>, lim: Limits, attempt: nat, p: Pass, n: N, last: Option<Problem>): PassResult<N>
    requires n in s.info
  {
    var sent := Sent(n, p.sendTime);
    match p.outcome
    case Failed(f) =>
      if Retryable(f) then
        var t := IncreaseBackoff(s, n, p.doneTime);
        PassResult(t, [sent, BackedOff(n, p.doneTime, t.info[n].currentBackoff, f)], Continue(Some(Rpc(f))))
      else PassResult(s, [sent], Stop(Threw(f)))
    case Answered(state, status) =>
      var t := DecreaseBackoff(s, n);
      var events := [sent, Replied(n, state, status)];
      match state
      case Retry =>
        PassResult(t, events + [Slept(Delay(attempt, lim.minBackoff, lim.maxBackoff))],
                   Continue(if status.Some? then Some(Status(status.value)) else last))
      case Finished => PassResult(t, events, Stop(Returned))
      case Error => PassResult(t, events, Stop(StatusError))
  }

  predicate Expired(deadline: Option<real>, now: real)
  {
    deadline.Some? && deadline.value <= now
  }

  /** A pass once readmission is done. */
  ghost function Proceed<N>(s: Net<N>, lim: Limits, attempt: nat, p: Pass, last: Option<Problem>): PassResult<N>
    requires Valid(s, p.selectTime) && ValidDraw(s, p.draw)
  {
    var chosen := Chosen(s, p.key, p.draw);
    if chosen.Err? then PassResult(s, [], Stop(NoNode(chosen.error)))
    else if !p.built then PassResult(s, [], Stop(NotBuilt))
    else
      ChosenKnown(s, p.selectTime, p.key, p.draw);
      if !Ready(s, chosen.value, p.sendTime) then PassResult(s, [], Continue(last))
      else Exchange(s, lim, attempt, p, chosen.value, last)
  }

  ghost function Attempt<N>(s: Net<N>, lim: Limits, attempt: nat, p: Pass, last: Option<Problem>): PassResult<N>
    requires Valid(s, p.selectTime) && ValidDraw(s, p.draw)
  {
    if Expired(lim.deadline, p.checkTime) then PassResult(s, [], Stop(TimedOut))
    else
      ReadmitExact(s, p.selectTime);
      Proceed(Readmit(s, p.selectTime), lim, attempt, p, last)
  }

  /** A selected node is a node of the network or still in the healthy list; without a key it is ready. */
  lemma ChosenKnown<N>(s: Net<N>, now: real, key: Option<string>, d: Draw)
    requires Valid(s, now) && ValidDraw(s, d) && Chosen(s, key, d).Ok?
    ensures var n := Chosen(s, key, d).value;
            n in s.info && (n in s.nodes || n in s.healthy) && (key.None? ==> Ready(s, n, now))
    ensures key.Some? && key.value in s.index ==> s.info[Chosen(s, key, d).value].key == key.value
  {
    var n := Chosen(s, key, d).value;
    match key
    case None => assert n in s.healthy;
    case Some(k) =>
      var used := if k in s.index then k else d.otherKey;
      assert n in s.index[used];
  }

  lemma ExchangeKeeps<N>(s: Net<N>, lim: Limits, attempt: nat, p: Pass, n: N, last: Option<Problem>)
    requires Valid(s, p.doneTime) && n in s.info
    ensures var t := Exchange(s, lim, attempt, p, n, last).net; Valid(t, p.doneTime) && Alike(s, t)
  {
    if p.outcome.Failed? {
      IncreaseValid(s, n, p.doneTime);
    } else {
      DecreaseValid(s, n, p.doneTime);
    }
  }

  /** The same nodes and index, and the healthy list and the unhealthy counter add up to the same. */
  ghost predicate Alike<N>(s: Net<N>, t: Net<N>)
  {
    && t.nodes == s.nodes && t.index == s.index && t.info.Keys == s.info.Keys
    && |t.healthy| + t.unhealthyCount == |s.healthy| + s.unhealthyCount
  }

  lemma {:induction false} ProceedKeeps<N>(s: Net<N>, lim: Limits, attempt: nat, p: Pass, last: Option<Problem>)
    requires Valid(s, p.selectTime) && ValidDraw(s, p.draw) && p.selectTime <= p.sendTime <= p.doneTime
    ensures var t := Proceed(s, lim, attempt, p, last).net; Valid(t, p.doneTime) && Alike(s, t)
  {
    ValidLater(s, p.selectTime, p.doneTime);
    var chosen := Chosen(s, p.key, p.draw);
    if chosen.Ok? {
      ChosenKnown(s, p.selectTime, p.key, p.draw);
      ExchangeKeeps(s, lim, attempt, p, chosen.value, last);
    }
  }

  lemma {:induction false} AttemptKeeps<N>(s: Net<N>, lim: Limits, attempt: nat, p: Pass, last: Option<Problem>)
    requires Valid(s, p.selectTime) && ValidDraw(s, p.draw) && p.selectTime <= p.sendTime <= p.doneTime
    ensures var t := Attempt(s, lim, attempt, p, last).net; Valid(t, p.doneTime) && Alike(s, t)
  {
    ReadmitExact(s, p.selectTime);
    ValidLater(s, p.selectTime, p.doneTime);
    ProceedKeeps(Readmit(s, p.selectTime), lim, attempt, p, last);
  }

  // ----- whole runs

  ghost predicate PassesFit<N>(index: map<string, seq<N>>, passes: seq<Pass>, now: real)
    decreases |passes|
  {
    passes != [] ==>
      var p := passes[0];
      && now <= p.checkTime <= p.selectTime <= p.sendTime <= p.doneTime
      && 0.0 <= p.draw.random < 1.0 && (index != map[] ==> p.draw.otherKey in index)
      && PassesFit(index, passes[1..], p.doneTime)
  }

  datatype RunResult<N> = RunResult(net: Net<N>, events: seq<Event<N>>, ending: Ending, used: nat)

  /** The loop from the given attempt on; `Unfinished` means that the passes supplied were too few. */
  ghost function Run<N>(s: Net<N>, now: real, lim: Limits, attempt: nat, passes: seq<Pass>,
          last: Option<Problem>): RunResult<N>
    requires Valid(s, now) && PassesFit(s.index, passes, now)
    decreases |passes|
  {
    if attempt > lim.maxAttempts then RunResult(s, [], OutOfAttempts(last), 0)
    else if passes == [] then RunResult(s, [], Unfinished, 0)
    else
      var p := passes[0];
      ValidLater(s, now, p.selectTime);
      AttemptKeeps(s, lim, attempt, p, last);
      var r := Attempt(s, lim, attempt, p, last);
      match r.verdict
      case Stop(ending) => RunResult(r.net, r.events, ending, 1)
      case Continue(problem) =>
        var rest := Run(r.net, p.doneTime, lim, attempt + 1, passes[1..], problem);
        RunResult(rest.net, r.events + rest.events, rest.ending, rest.used + 1)
  }
}
