/** The sample-resolution loop: up to ten rounds of asking the job
    scheduler for one event range, deriving the sample ID from it and asking
    the sample coordinator for that sample. Both services are scripted: one
    `Attempt` holds the answers the services give in one round. */
module Resolution {
  import opened Wrappers
  import opened Text
  import opened Protocol
  import opened Marker

  /** Rounds of the resolution loop. */
  const MaxAttempts: nat := 10

  /** Exit code when the event-range request itself fails. */
  const ExitCodeWget: nat := 146
  /** Exit code when an event-range answer cannot be used. */
  const ExitCodeEvent: nat := 147
  /** Exit status of a Python process dying on an uncaught exception. */
  const ExitCodeCrash: nat := 1

  /** The job scheduler's answer to one event-range request. `Unreadable`
      stands for every answer that makes the parsing raise: a body that is
      not JSON, a missing `eventRanges` key, a first range without a string
      `eventRangeID`. */
  datatype EventAnswer =
    | HttpFailed(message: string)
    | Unreadable
    | Ranges(ids: seq<string>)

  /** The sample coordinator's answer for one sample. A key missing from the
      answer is `None`. */
  datatype SampleAnswer =
    | SampleFailed(message: string)
    | SampleFound(loss: Option<Value>, parameters: Option<Params>)

  /** The answers of one round. `sample` is only consulted when the round
      gets as far as asking for a sample. */
  datatype Attempt = Attempt(events: EventAnswer, sample: SampleAnswer)

  datatype Outcome =
    | Resolved(eventID: string, sampleID: string, parameters: Params)
    | NoWork
    | ExitWget
    | ExitEvent
    | Crashed

  /** The result of one round: go on to the next round, or stop. Both carry
      the calls the round made. */
  datatype StepResult =
    | Next(calls: seq<Call>)
    | Stop(outcome: Outcome, calls: seq<Call>)

  /** The calls and final outcome of the whole loop. */
  datatype Run = Run(outcome: Outcome, calls: seq<Call>)

  /** The calls the resolution loop makes. */
  predicate ResolutionCall(c: Call)
  {
    c.GetEventRanges? || c.GetSample? || c.AcknowledgeEvent? || c.WriteMarker? || c.WriteSampleFile?
  }

  /** The round got an event range whose ID names a sample. */
  predicate HasEvent(a: Attempt)
  {
    a.events.Ranges? && |a.events.ids| > 0 && SampleIdOf(a.events.ids[0]).Some?
  }

  /** The event range handed out in this round. */
  function EventOf(a: Attempt): string
    requires HasEvent(a)
  {
    a.events.ids[0]
  }

  /** The coordinator already holds a loss for the sample. */
  predicate AlreadyEvaluated(a: Attempt)
  {
    HasEvent(a) && a.sample.SampleFound? && a.sample.loss.Some? && a.sample.loss.value != Null
  }

  /** The sample still needs evaluating and its parameters are known. */
  predicate Pending(a: Attempt)
  {
    HasEvent(a) && a.sample.SampleFound? && a.sample.loss == Some(Null) && a.sample.parameters.Some?
  }

  /** The coordinator could not be asked. */
  predicate CoordinatorDown(a: Attempt)
  {
    HasEvent(a) && a.sample.SampleFailed?
  }

  /** The round got an answer the worker cannot use: an unreadable range
      list, an event-range ID with fewer than four `-` fields, or a
      coordinator answer without a `loss` key, or without `parameters` for
      a sample still to be evaluated. Each makes the parsing raise. */
  predicate Unusable(a: Attempt)
  {
    || a.events.Unreadable?
    || (a.events.Ranges? && |a.events.ids| > 0 && SampleIdOf(a.events.ids[0]).None?)
    || (HasEvent(a) && a.sample.SampleFound?
        && (a.sample.loss.None? || (a.sample.loss == Some(Null) && a.sample.parameters.None?)))
  }

  /** Rounds after which the loop goes on. */
  predicate Continues(a: Attempt)
  {
    AlreadyEvaluated(a) || CoordinatorDown(a)
  }

  /** One round, with a coordinator failure logged and the loop going on. */
  function Step(a: Attempt): (r: StepResult)
    ensures |r.calls| > 0 && r.calls[0] == GetEventRanges && Fetches(r.calls) == 1
    ensures r.Next? <==> Continues(a)
    ensures r.Stop? ==> r.outcome != Crashed
    ensures r.Stop? && r.outcome == ExitWget <==> a.events.HttpFailed?
    ensures r.Stop? && r.outcome == NoWork <==> a.events == Ranges([])
    ensures r.Stop? && r.outcome.Resolved? <==> Pending(a)
    ensures r.Stop? && r.outcome == ExitEvent <==> Unusable(a)
    ensures r.Stop? && r.outcome.Resolved? ==>
      r.outcome.eventID == EventOf(a)
      && SampleIdOf(r.outcome.eventID) == Some(r.outcome.sampleID)
      && a.sample.parameters == Some(r.outcome.parameters)
      && r.calls == [GetEventRanges, GetSample(r.outcome.sampleID),
                     WriteMarker(Format(r.outcome.eventID, r.outcome.sampleID)),
                     WriteSampleFile(r.outcome.parameters)]
    ensures !HasEvent(a) ==> r.calls == [GetEventRanges]
    ensures CoordinatorDown(a) ==> r.calls == [GetEventRanges, GetSample(SampleIdOf(EventOf(a)).value)]
    ensures AlreadyEvaluated(a) ==>
      r.calls == [GetEventRanges, GetSample(SampleIdOf(EventOf(a)).value), AcknowledgeEvent(EventOf(a))]
    ensures MarkerWrites(r.calls) <= 1
    ensures MarkerWrites(r.calls) > 0 ==> r.Stop? && (r.outcome.Resolved? || r.outcome == ExitEvent)
    ensures r.Stop? && r.outcome.Resolved? ==> MarkerWrites(r.calls) == 1
    ensures forall c :: c in r.calls ==> ResolutionCall(c)
  {
    RoundTallies(a, true);
    RoundCalls(a, true);
    RoundShape(a);
    RoundContinues(a);
    RoundOutcomes(a);
    if Pending(a) then RoundResolved(a); Round(a, true) else Round(a, true)
  }

  /** One round exactly as written: the handler for a coordinator failure
      reads `e.message`, which Python 3 exceptions do not have, so the
      handler itself raises and the process dies. */
  function StepAsWritten(a: Attempt): (r: StepResult)
    ensures CoordinatorDown(a) ==> r.Stop? && r.outcome == Crashed
    ensures !CoordinatorDown(a) ==> r == Step(a)
  {
    Round(a, false)
  }

  /** The body of one round; `retryOnFailure` says whether a coordinator
      failure lets the loop go on. */
  function Round(a: Attempt, retryOnFailure: bool): StepResult
  {
    match a.events
    case HttpFailed(_) => Stop(ExitWget, [GetEventRanges])
    case Unreadable => Stop(ExitEvent, [GetEventRanges])
    case Ranges(ids) =>
      if |ids| == 0 then Stop(NoWork, [GetEventRanges])
      else
        var eventID := ids[0];
        match SampleIdOf(eventID)
        case None => Stop(ExitEvent, [GetEventRanges])
        case Some(sampleID) =>
          match a.sample
          case SampleFailed(_) =>
            if retryOnFailure then Next([GetEventRanges, GetSample(sampleID)])
            else Stop(Crashed, [GetEventRanges, GetSample(sampleID)])
          case SampleFound(loss, parameters) =>
            if loss.None? then Stop(ExitEvent, [GetEventRanges, GetSample(sampleID)])
            else if loss.value != Null then
              Next([GetEventRanges, GetSample(sampleID), AcknowledgeEvent(eventID)])
            else
              var marker := WriteMarker(Format(eventID, sampleID));
              match parameters
              case None => Stop(ExitEvent, [GetEventRanges, GetSample(sampleID), marker])
              case Some(p) =>
                Stop(Resolved(eventID, sampleID, p), [GetEventRanges, GetSample(sampleID), marker, WriteSampleFile(p)])
  }

  /** Every round asks for exactly one event range and writes at most one
      marker, and only when it stops on the sample it resolves or on a
      malformed coordinator answer. */
  lemma RoundTallies(a: Attempt, retryOnFailure: bool)
    ensures var r := Round(a, retryOnFailure);
      Fetches(r.calls) == 1 && MarkerWrites(r.calls) <= 1
      && (MarkerWrites(r.calls) > 0 ==> r.Stop? && (r.outcome.Resolved? || r.outcome == ExitEvent))
      && (r.Stop? && r.outcome.Resolved? ==> MarkerWrites(r.calls) == 1)
  {
    TalliesOne(GetEventRanges);
    if HasEvent(a) {
      var e := a.events.ids[0];
      var s := SampleIdOf(e).value;
      AskedTallies(e, s);
      match a.sample
      case SampleFailed(_) =>
      case SampleFound(loss, parameters) =>
        if loss.None? {
        } else if loss.value != Null {
        } else {
          match parameters
          case None =>
          case Some(p) =>
            WrittenTallies(e, s, p);
        }
    }
  }

  /** Tallies of the traces a round that reaches the coordinator leaves. */
  lemma AskedTallies(e: string, s: string)
    ensures var asked := [GetEventRanges, GetSample(s)];
      && Fetches(asked) == 1 && MarkerWrites(asked) == 0
      && Fetches(asked + [AcknowledgeEvent(e)]) == 1 && MarkerWrites(asked + [AcknowledgeEvent(e)]) == 0
      && Fetches(asked + [WriteMarker(Format(e, s))]) == 1 && MarkerWrites(asked + [WriteMarker(Format(e, s))]) == 1
  {
    var asked := [GetEventRanges, GetSample(s)];
    TalliesOne(GetEventRanges);
    TalliesOne(GetSample(s));
    TalliesConcat([GetEventRanges], [GetSample(s)]);
    assert asked == [GetEventRanges] + [GetSample(s)];
    TalliesOne(AcknowledgeEvent(e));
    TalliesConcat(asked, [AcknowledgeEvent(e)]);
    TalliesOne(WriteMarker(Format(e, s)));
    TalliesConcat(asked, [WriteMarker(Format(e, s))]);
  }

  lemma WrittenTallies(e: string, s: string, p: Params)
    ensures var written := [GetEventRanges, GetSample(s), WriteMarker(Format(e, s)), WriteSampleFile(p)];
      Fetches(written) == 1 && MarkerWrites(written) == 1
  {
    var marked := [GetEventRanges, GetSample(s), WriteMarker(Format(e, s))];
    AskedTallies(e, s);
    assert marked == [GetEventRanges, GetSample(s)] + [WriteMarker(Format(e, s))];
    TalliesOne(WriteSampleFile(p));
    TalliesConcat(marked, [WriteSampleFile(p)]);
    assert [GetEventRanges, GetSample(s), WriteMarker(Format(e, s)), WriteSampleFile(p)] == marked + [WriteSampleFile(p)];
  }

  /** A round only talks to the two services and writes the two local
      files. */
  lemma RoundCalls(a: Attempt, retryOnFailure: bool)
    ensures forall c :: c in Round(a, retryOnFailure).calls ==> ResolutionCall(c)
  {
    match a.events
    case HttpFailed(_) =>
    case Unreadable =>
    case Ranges(ids) =>
      if |ids| > 0 {
        match SampleIdOf(ids[0])
        case None =>
        case Some(s) =>
          match a.sample
          case SampleFailed(_) =>
          case SampleFound(loss, parameters) =>
            if loss.Some? && loss.value == Null {
              match parameters
              case None =>
              case Some(p) =>
            }
      }
  }

  /** Which round stops the loop, and how, read off the answers. */
  lemma RoundShape(a: Attempt)
    ensures var r := Round(a, true);
      && |r.calls| > 0 && r.calls[0] == GetEventRanges
      && (r.Stop? ==> r.outcome != Crashed)
  {
    match a.events
    case HttpFailed(_) =>
    case Unreadable =>
    case Ranges(ids) =>
      if |ids| > 0 {
        match SampleIdOf(ids[0])
        case None =>
        case Some(s) =>
          match a.sample
          case SampleFailed(_) =>
          case SampleFound(loss, parameters) =>
            if loss.Some? && loss.value == Null {
              match parameters
              case None =>
              case Some(p) =>
            }
      }
  }

  lemma RoundContinues(a: Attempt)
    ensures Round(a, true).Next? <==> Continues(a)
  {
    match a.events
    case HttpFailed(_) =>
    case Unreadable =>
    case Ranges(ids) =>
      if |ids| > 0 {
        match SampleIdOf(ids[0])
        case None =>
        case Some(s) =>
          match a.sample
          case SampleFailed(_) =>
          case SampleFound(loss, parameters) =>
            if loss.Some? && loss.value == Null {
              match parameters
              case None =>
              case Some(p) =>
            }
      }
  }

  lemma RoundOutcomes(a: Attempt)
    ensures var r := Round(a, true);
      && (r.Stop? && r.outcome == ExitWget <==> a.events.HttpFailed?)
      && (r.Stop? && r.outcome == NoWork <==> a.events == Ranges([]))
      && (r.Stop? && r.outcome.Resolved? <==> Pending(a))
      && (r.Stop? && r.outcome == ExitEvent <==> Unusable(a))
  {
    match a.events
    case HttpFailed(_) =>
    case Unreadable =>
    case Ranges(ids) =>
      if |ids| > 0 {
        match SampleIdOf(ids[0])
        case None =>
        case Some(s) =>
          match a.sample
          case SampleFailed(_) =>
          case SampleFound(loss, parameters) =>
            if loss.Some? && loss.value == Null {
              match parameters
              case None =>
              case Some(p) =>
            }
      }
  }

  /** A resolved round asks for the sample named by the event range and
      then writes the marker and the parameters. */
  lemma RoundResolved(a: Attempt)
    requires Pending(a)
    ensures var r := Round(a, true);
      && r.Stop? && r.outcome.Resolved?
      && r.outcome.eventID == EventOf(a)
      && SampleIdOf(r.outcome.eventID) == Some(r.outcome.sampleID)
      && a.sample.parameters == Some(r.outcome.parameters)
      && r.calls == [GetEventRanges, GetSample(r.outcome.sampleID),
                     WriteMarker(Format(r.outcome.eventID, r.outcome.sampleID)),
                     WriteSampleFile(r.outcome.parameters)]
  {
  }

  /** The rounds of the loop, one per attempt in `script`, until one stops
      it; running out of attempts leaves no marker, like having no work. */
  function Loop(script: seq<Attempt>): (r: Run)
    ensures Fetches(r.calls) <= |script|
    ensures |script| > 0 ==> Fetches(r.calls) >= 1
    ensures r.outcome != Crashed
    ensures MarkerWrites(r.calls) <= 1
    ensures MarkerWrites(r.calls) == 1 ==> r.outcome.Resolved? || r.outcome == ExitEvent
    ensures r.outcome.Resolved? ==> MarkerWrites(r.calls) == 1
    decreases |script|
  {
    if |script| == 0 then Run(NoWork, [])
    else
      match Step(script[0])
      case Stop(outcome, calls) => Run(outcome, calls)
      case Next(calls) =>
        var rest := Loop(script[1..]);
        TalliesConcat(calls, rest.calls);
        Run(rest.outcome, calls + rest.calls)
  }

  /** A resolved loop ends its trace by writing the marker for the event
      range and sample it resolved and then the sample's parameters, and
      the marker names the sample the event range's ID carries. */
  lemma {:induction false} LoopResolvedEnds(script: seq<Attempt>)
    requires Loop(script).outcome.Resolved?
    ensures var r := Loop(script);
      && |r.calls| >= 2
      && r.calls[|r.calls| - 2] == WriteMarker(Format(r.outcome.eventID, r.outcome.sampleID))
      && r.calls[|r.calls| - 1] == WriteSampleFile(r.outcome.parameters)
      && SampleIdOf(r.outcome.eventID) == Some(r.outcome.sampleID)
    decreases |script|
  {
    var first := Step(script[0]);
    if first.Next? {
      var rest := Loop(script[1..]);
      LoopResolvedEnds(script[1..]);
      LaterRoundsEndTheTrace(first.calls, rest.calls);
    }
  }

  /** Rounds that went on only put calls in front of the trace. */
  lemma LaterRoundsEndTheTrace(pre: seq<Call>, calls: seq<Call>)
    requires |calls| >= 2
    ensures var all := pre + calls;
      |all| >= 2 && all[|all| - 2] == calls[|calls| - 2] && all[|all| - 1] == calls[|calls| - 1]
  {
  }

  /** The loop only talks to the two services and writes the two local
      files: it never runs the payload. */
  lemma {:induction false} LoopCalls(script: seq<Attempt>)
    ensures forall c :: c in Loop(script).calls ==> ResolutionCall(c)
    decreases |script|
  {
    if |script| > 0 {
      var first := Step(script[0]);
      if first.Next? {
        LoopCalls(script[1..]);
        assert Loop(script).calls == first.calls + Loop(script[1..]).calls;
      }
    }
  }

  /** The loop as the worker runs it: the first ten scripted rounds. */
  function Resolve(script: seq<Attempt>): (r: Run)
    requires |script| >= MaxAttempts
    ensures 1 <= Fetches(r.calls) <= MaxAttempts
    ensures r.outcome != Crashed
    ensures forall c :: c in r.calls ==> ResolutionCall(c)
  {
    LoopCalls(script[..MaxAttempts]);
    Loop(script[..MaxAttempts])
  }

  /** The loop stops in the first round that does not go on, with that
      round's outcome, after one event-range request per round so far. */
  lemma {:induction false} LoopStopsAtFirstDecisive(script: seq<Attempt>, k: nat)
    requires k < |script|
    requires forall j :: 0 <= j < k ==> Continues(script[j])
    requires !Continues(script[k])
    ensures Loop(script).outcome == Step(script[k]).outcome
    ensures Fetches(Loop(script).calls) == k + 1
    decreases k
  {
    if k > 0 {
      var calls := Step(script[0]).calls;
      assert Continues(script[0]);
      LoopStopsAtFirstDecisive(script[1..], k - 1);
      TalliesConcat(calls, Loop(script[1..]).calls);
    }
  }

  /** When every round goes on, the loop uses up its rounds, asks for an
      event range in each, and ends with no work and no marker. */
  lemma {:induction false} LoopExhausted(script: seq<Attempt>)
    requires forall j :: 0 <= j < |script| ==> Continues(script[j])
    ensures Loop(script).outcome == NoWork
    ensures Fetches(Loop(script).calls) == |script|
    ensures MarkerWrites(Loop(script).calls) == 0
    decreases |script|
  {
    if |script| > 0 {
      var calls := Step(script[0]).calls;
      assert Continues(script[0]);
      LoopExhausted(script[1..]);
      TalliesConcat(calls, Loop(script[1..]).calls);
    }
  }

  /** An empty event-range list ends the loop at once: one request, no
      coordinator lookup, no marker. */
  lemma {:induction false} NoEventsMeansNoWork(script: seq<Attempt>)
    requires |script| > 0 && script[0].events == Ranges([])
    ensures Loop(script).outcome == NoWork
    ensures Loop(script).calls == [GetEventRanges]
  {
  }

  /** An event-range ID with fewer than four `-` fields names no sample, so
      the round cannot use it. */
  lemma ShortEventIdUnusable(a: Attempt)
    requires a.events.Ranges? && |a.events.ids| > 0
    requires |Split(a.events.ids[0], '-')| < 4
    ensures Unusable(a)
  {
  }

  /** Round `k` handed out `eventID` for a pending sample, and every round
      before it went on. */
  predicate DecidedAt(script: seq<Attempt>, k: nat, eventID: string)
    requires k < |script|
  {
    Pending(script[k]) && EventOf(script[k]) == eventID && forall j :: 0 <= j < k ==> Continues(script[j])
  }

  /** A resolved loop resolved a pending sample: some round handed out the
      event range, every round before it went on, and the coordinator had
      no loss for its sample yet. */
  lemma {:induction false} ResolvedOnlyPending(script: seq<Attempt>)
    requires Loop(script).outcome.Resolved?
    ensures exists k :: 0 <= k < |script| && DecidedAt(script, k, Loop(script).outcome.eventID)
    decreases |script|
  {
    var e := Loop(script).outcome.eventID;
    var first := Step(script[0]);
    if first.Stop? {
      assert Loop(script).outcome == first.outcome;
      assert DecidedAt(script, 0, e);
    } else {
      assert Loop(script).outcome == Loop(script[1..]).outcome;
      ResolvedOnlyPending(script[1..]);
      var k :| 0 <= k < |script[1..]| && DecidedAt(script[1..], k, e);
      DecidedLater(script, k, e);
    }
  }

  lemma DecidedLater(script: seq<Attempt>, k: nat, eventID: string)
    requires |script| > 0 && Continues(script[0])
    requires k < |script[1..]| && DecidedAt(script[1..], k, eventID)
    ensures DecidedAt(script, k + 1, eventID)
  {
    assert script[k + 1] == script[1..][k];
    assert forall j :: 1 <= j < k + 1 ==> script[j] == script[1..][j - 1];
  }

  lemma ContinuesShift(script: seq<Attempt>, k: nat)
    requires 0 < k <= |script|
    requires forall j :: 0 <= j < k ==> Continues(script[j])
    ensures forall j :: 0 <= j < k - 1 ==> Continues(script[1..][j])
  {
    forall j | 0 <= j < k - 1
      ensures Continues(script[1..][j])
    {
      assert script[1..][j] == script[j + 1];
    }
  }

  /** Unfolds the loop once at a round that goes on. */
  lemma LoopGoesOn(script: seq<Attempt>)
    requires |script| > 0 && Continues(script[0])
    ensures Loop(script).calls == Step(script[0]).calls + Loop(script[1..]).calls
    ensures Loop(script).outcome == Loop(script[1..]).outcome
  {
  }

  /** At index `i` of `calls`, event `e` is acknowledged after `k + 1`
      event-range requests, and the next call is the next request. */
  predicate AcknowledgedAt(calls: seq<Call>, i: nat, e: string, k: nat)
  {
    i + 1 < |calls| && calls[i] == AcknowledgeEvent(e) && calls[i + 1] == GetEventRanges
    && Fetches(calls[..i + 1]) == k + 1
  }

  /** An already-evaluated sample's event range is acknowledged, in whatever
      round `k` it is handed out, right after the lookup and before the next
      event-range request: the acknowledgement follows request `k + 1` and
      precedes request `k + 2`. */
  lemma {:induction false} AlreadyEvaluatedAcknowledged(script: seq<Attempt>, k: nat)
    requires k + 1 < |script|
    requires forall j :: 0 <= j < k ==> Continues(script[j])
    requires AlreadyEvaluated(script[k])
    ensures exists i :: AcknowledgedAt(Loop(script).calls, i, EventOf(script[k]), k)
    decreases k
  {
    var e := EventOf(script[k]);
    if k == 0 {
      AcknowledgedFirst(script);
    } else {
      var tail := script[1..];
      ContinuesShift(script, k);
      assert tail[k - 1] == script[k];
      AlreadyEvaluatedAcknowledged(tail, k - 1);
      var i :| AcknowledgedAt(Loop(tail).calls, i, e, k - 1);
      assert Continues(script[0]);
      LoopGoesOn(script);
      AcknowledgedShift(Step(script[0]).calls, Loop(tail).calls, i, e, k - 1);
    }
  }

  /** An already-evaluated sample in the first round is acknowledged third,
      after the one request, and the second request follows. */
  lemma AcknowledgedFirst(script: seq<Attempt>)
    requires |script| >= 2 && AlreadyEvaluated(script[0])
    ensures AcknowledgedAt(Loop(script).calls, 2, EventOf(script[0]), 0)
  {
    var e := EventOf(script[0]);
    var first := [GetEventRanges, GetSample(SampleIdOf(e).value), AcknowledgeEvent(e)];
    AcknowledgedRound(script);
    var calls := Loop(script).calls;
    assert calls[..3] == first;
    AskedTallies(e, SampleIdOf(e).value);
    assert first == [GetEventRanges, GetSample(SampleIdOf(e).value)] + [AcknowledgeEvent(e)];
  }

  /** A round with one request in front of a later acknowledgement. */
  lemma AcknowledgedShift(first: seq<Call>, calls: seq<Call>, i: nat, e: string, k: nat)
    requires Fetches(first) == 1 && AcknowledgedAt(calls, i, e, k)
    ensures AcknowledgedAt(first + calls, |first| + i, e, k + 1)
  {
    assert (first + calls)[..|first| + i + 1] == first + calls[..i + 1];
    TalliesConcat(first, calls[..i + 1]);
  }

  /** A round whose sample was already evaluated looks the sample up,
      acknowledges its event range, and the next round asks again. */
  lemma AcknowledgedRound(script: seq<Attempt>)
    requires |script| >= 2 && AlreadyEvaluated(script[0])
    ensures var e := EventOf(script[0]); var later := Loop(script[1..]).calls;
      && Loop(script).calls == [GetEventRanges, GetSample(SampleIdOf(e).value), AcknowledgeEvent(e)] + later
      && |later| > 0 && later[0] == GetEventRanges
  {
    LoopGoesOn(script);
    LoopStartsWithFetch(script[1..]);
  }

  /** Every non-empty run of the loop begins by asking for event ranges. */
  lemma LoopStartsWithFetch(script: seq<Attempt>)
    requires |script| > 0
    ensures |Loop(script).calls| > 0 && Loop(script).calls[0] == GetEventRanges
  {
    var first := Step(script[0]);
  }

  /** The loop exactly as written, where a coordinator failure kills the
      process. */
  function LoopAsWritten(script: seq<Attempt>): (r: Run)
    ensures r.outcome == Crashed ==> exists k :: 0 <= k < |script| && CoordinatorDown(script[k])
    ensures (forall k :: 0 <= k < |script| ==> !CoordinatorDown(script[k])) ==> r == Loop(script)
    decreases |script|
  {
    if |script| == 0 then Run(NoWork, [])
    else
      match StepAsWritten(script[0])
      case Stop(outcome, calls) => Run(outcome, calls)
      case Next(calls) =>
        var rest := LoopAsWritten(script[1..]);
        assert forall k :: 0 <= k < |script[1..]| ==> script[1..][k] == script[k + 1];
        Run(rest.outcome, calls + rest.calls)
  }

  /** As written, a coordinator failure in the first round ends the whole
      process after a single request, however many rounds remain. */
  lemma {:induction false} CoordinatorFailureCrashesAsWritten(script: seq<Attempt>)
    requires |script| > 0 && CoordinatorDown(script[0])
    ensures LoopAsWritten(script).outcome == Crashed
    ensures Fetches(LoopAsWritten(script).calls) == 1
  {
    RoundTallies(script[0], false);
  }

  /** Corrected, a coordinator failure is followed by the next round, and
      the loop never crashes. */
  lemma {:induction false} CoordinatorFailureRetried(script: seq<Attempt>)
    requires |script| > 0 && CoordinatorDown(script[0])
    ensures Loop(script).outcome == Loop(script[1..]).outcome
    ensures Loop(script).calls == [GetEventRanges, GetSample(SampleIdOf(EventOf(script[0])).value)] + Loop(script[1..]).calls
  {
  }
}
