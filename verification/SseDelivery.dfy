/**
 * What a server-sent-events response receives, told by the steps of the run: the frames that the
 * source wrote, the heartbeats and the error report, in the order in which they were asked for.
 */
module SseDelivery {
  import opened Options
  import opened Sorting
  import opened SseStream

  // ----- heartbeats in flight

  ghost predicate SomePendingTimer(c: Chain) { exists i: nat :: IsPendingTimer(c, i) }

  ghost predicate FlightIsPending(s: State) {
    s.heartbeatInFlight ==> SomePendingTimer(s.chain)
  }

  lemma SubmitKeepsPending(s: State, chunk: string, origin: Origin)
    requires SomePendingTimer(s.chain) || origin == FromTimer
    requires |s.chain.results| <= |s.chain.submitted|
    ensures SomePendingTimer(Submit(s, chunk, origin).chain)
  {
    var c' := Submit(s, chunk, origin).chain;
    if SomePendingTimer(s.chain) {
      var i: nat :| IsPendingTimer(s.chain, i);
      assert IsPendingTimer(c', i);
    } else {
      assert IsPendingTimer(c', |s.chain.submitted|);
    }
  }

  lemma SettleKeepsPending(s: State, written: bool)
    requires FlightIsPending(s) && |s.chain.results| < |s.chain.submitted|
    ensures FlightIsPending(Settle(s, written))
  {
    if Settle(s, written).heartbeatInFlight {
      var i: nat :| IsPendingTimer(s.chain, i);
      assert IsPendingTimer(Settle(s, written).chain, i);
    }
  }

  lemma DisconnectKeepsPending(s: State)
    requires FlightIsPending(s) && WaitsForALink(s.chain)
    ensures FlightIsPending(Disconnect(s))
  {
    if s.chain.waiting {
      SettleKeepsPending(s.(aborted := true), false);
    }
  }

  lemma RunLinkKeepsPending(s: State, outcome: Outcome)
    requires FlightIsPending(s) && |s.chain.results| < |s.chain.submitted|
    ensures FlightIsPending(RunOneLink(s, outcome))
  {
    hide SomePendingTimer, Settle;
    SettleKeepsPending(s, false);
    var written := s.(chain := HandOver(s.chain));
    assert FlightIsPending(written) by { SamePending(s.chain, written.chain); }
    SettleKeepsPending(written, true);
  }

  lemma SamePending(c: Chain, c': Chain)
    requires c'.submitted == c.submitted && c'.results == c.results
    ensures SomePendingTimer(c) <==> SomePendingTimer(c')
  {
    assert forall i: nat :: IsPendingTimer(c, i) <==> IsPendingTimer(c', i);
  }

  lemma StepKeepsPending(s: State, step: Step)
    requires FlightIsPending(s) && SseStream.Inv(s) && Enabled(s, step)
    ensures WaitsForALink(s.chain) && FlightIsPending(Next(s, step))
  {
    assert WaitsForALink(s.chain) && |s.chain.results| <= |s.chain.submitted|;
    hide SseStream.Inv, SomePendingTimer, Disconnect, RunOneLink, Settle, Submit;
    match step
    case Ready => SubmitFlies(s, s.(response := SendHead(s.response), hasWriter := true), HEARTBEAT, FromReady);
    case Write(frame) =>
      SubmitFlies(s, s, frame, FromSource);
      DisconnectKeepsPending(s);
    case StartTimer =>
    case Tick => SubmitFlies(s, s.(heartbeatInFlight := true), HEARTBEAT, FromTimer);
    case RunLink(outcome) => RunLinkKeepsPending(s, outcome);
    case Drain => SettleKeepsPending(s, true);
    case ResponseError => SettleKeepsPending(s, false);
    case ResponseClose => DisconnectKeepsPending(s.(response := s.response.(destroyed := true)));
    case RequestAborted => DisconnectKeepsPending(s);
    case SourceReturns =>
    case SourceThrows(report) => ThrowKeepsPending(s, report);
    case Finish =>
      var response := (if s.response.headersSent then s.response else SendHead(s.response)).(ended := true);
      DisconnectKeepsPending(s.(phase := Done, response := response, timerOn := false));
  }

  lemma SubmitFlies(s: State, s1: State, chunk: string, origin: Origin)
    requires FlightIsPending(s) && s1.chain == s.chain && |s.chain.results| <= |s.chain.submitted|
    requires s1.heartbeatInFlight == (s.heartbeatInFlight || origin == FromTimer)
    ensures FlightIsPending(Submit(s1, chunk, origin))
  {
    hide SomePendingTimer;
    if s1.heartbeatInFlight {
      SubmitKeepsPending(s1, chunk, origin);
    }
  }

  lemma ThrowKeepsPending(s: State, report: Option<string>)
    requires FlightIsPending(s) && Enabled(s, SourceThrows(report)) && WaitsForALink(s.chain)
    requires |s.chain.results| <= |s.chain.submitted|
    ensures FlightIsPending(Next(s, SourceThrows(report)))
  {
    hide SomePendingTimer, Disconnect, Submit;
    forall response: Response ensures FlightIsPending(Close(s, response)) {
      DisconnectKeepsPending(s.(phase := Done, response := response, timerOn := false));
    }
    if report.Some? {
      SubmitFlies(s, s, report.value, FromError);
    }
  }

  lemma {:induction false} RunKeepsPending(steps: seq<Step>)
    requires Valid(steps)
    ensures FlightIsPending(After(steps))
  {
    hide Next, Enabled, FlightIsPending, SseStream.Inv;
    if steps == [] {
      NothingInFlight();
    } else {
      var n := |steps| - 1;
      RunKeepsPending(steps[..n]);
      RunKeepsInv(steps[..n]);
      StepKeepsPending(After(steps[..n]), steps[n]);
    }
  }

  lemma NothingInFlight()
    ensures FlightIsPending(Initial())
  {
  }

  // ----- what was asked for

  /** Some call of `ready` came before any disconnect. */
  ghost predicate Opened(steps: seq<Step>)
    requires Valid(steps)
  {
    steps != [] && (
      var n := |steps| - 1;
      Opened(steps[..n]) || (steps[n].Ready? && !After(steps[..n]).aborted))
  }

  /** What `step`, taken after `before`, asks to be written. */
  ghost function Asks(before: seq<Step>, step: Step): seq<string>
    requires Valid(before)
  {
    var disconnected := After(before).aborted;
    match step
    case Ready => if !Opened(before) && !disconnected then [": heartbeat\n\n"] else []
    case Write(frame) => if Opened(before) then [frame] else []
    case Tick =>
      if Opened(before) && !disconnected && !SomePendingTimer(After(before).chain) then [": heartbeat\n\n"] else []
    case SourceThrows(report) => if report.Some? && Opened(before) && !disconnected then [report.value] else []
    case _ => []
  }

  ghost function Asked(steps: seq<Step>): seq<string>
    requires Valid(steps)
  {
    if steps == [] then []
    else
      var n := |steps| - 1;
      Asked(steps[..n]) + Asks(steps[..n], steps[n])
  }

  /** What a step adds to the chain. */
  function Added(s: State, step: Step): seq<string> {
    match step
    case Ready => if s.hasWriter || s.aborted then [] else [HEARTBEAT]
    case Write(frame) => if s.hasWriter then [frame] else []
    case Tick => if s.heartbeatInFlight || s.aborted || !s.hasWriter then [] else [HEARTBEAT]
    case SourceThrows(report) =>
      if s.response.headersSent && !s.aborted && report.Some? && s.hasWriter then [report.value] else []
    case _ => []
  }

  lemma StepAdds(s: State, step: Step)
    requires Enabled(s, step) && WaitsForALink(s.chain)
    ensures Chunks(Next(s, step).chain.submitted) == Chunks(s.chain.submitted) + Added(s, step)
    ensures Next(s, step).hasWriter <==> s.hasWriter || (step.Ready? && !s.aborted)
  {
    hide Submit, Disconnect, RunOneLink, Settle, Chunks;
    SubmitAdds(s.(response := SendHead(s.response), hasWriter := true), HEARTBEAT, FromReady);
    SubmitAdds(s.(heartbeatInFlight := true), HEARTBEAT, FromTimer);
    if step.Write? {
      SubmitAdds(s, step.frame, FromSource);
      DisconnectAdds(s);
    } else if step.RunLink? {
      LinkAdds(s, step.outcome);
    } else if step.Drain? || step.ResponseError? {
      SettleAdds(s, step.Drain?);
    } else if step.RequestAborted? {
      DisconnectAdds(s);
    } else if step.ResponseClose? {
      DisconnectAdds(s.(response := s.response.(destroyed := true)));
    } else if step.SourceThrows? || step.Finish? {
      if step.SourceThrows? && step.report.Some? {
        SubmitAdds(s, step.report.value, FromError);
      }
      forall response: Response ensures Close(s, response).chain.submitted == s.chain.submitted && Close(s, response).hasWriter == s.hasWriter {
        DisconnectAdds(s.(phase := Done, response := response, timerOn := false));
      }
    }
  }

  lemma SubmitAdds(s: State, chunk: string, origin: Origin)
    ensures Chunks(Submit(s, chunk, origin).chain.submitted) == Chunks(s.chain.submitted) + [chunk]
    ensures Submit(s, chunk, origin).hasWriter == s.hasWriter
  {
  }

  lemma SettleAdds(s: State, written: bool)
    requires |s.chain.results| < |s.chain.submitted|
    ensures Settle(s, written).chain.submitted == s.chain.submitted && Settle(s, written).hasWriter == s.hasWriter
  {
  }

  lemma DisconnectAdds(s: State)
    requires WaitsForALink(s.chain)
    ensures Disconnect(s).chain.submitted == s.chain.submitted && Disconnect(s).hasWriter == s.hasWriter
  {
  }

  lemma LinkAdds(s: State, outcome: Outcome)
    requires |s.chain.results| < |s.chain.submitted|
    ensures RunOneLink(s, outcome).chain.submitted == s.chain.submitted && RunOneLink(s, outcome).hasWriter == s.hasWriter
  {
  }

  lemma AddedIsAsked(steps: seq<Step>, step: Step)
    requires Valid(steps) && Enabled(After(steps), step)
    requires After(steps).hasWriter <==> Opened(steps)
    ensures Added(After(steps), step) == Asks(steps, step)
  {
    hide Opened, Next;
    RunKeepsInv(steps);
    RunKeepsPending(steps);
  }

  /**
   * In every run, what is submitted to the writer is exactly what the steps asked for: the first
   * heartbeat, every frame of the source once the stream is open, a heartbeat for every tick that
   * finds none queued, and the error report.
   */
  lemma {:induction false} SubmittedIsAsked(steps: seq<Step>)
    requires Valid(steps)
    ensures Chunks(After(steps).chain.submitted) == Asked(steps)
    ensures After(steps).hasWriter <==> Opened(steps)
  {
    hide Next, Enabled, Asks, Added, Chunks;
    if steps == [] {
      NothingSubmitted();
    } else {
      var n := |steps| - 1;
      SubmittedIsAsked(steps[..n]);
      StepAdds(After(steps[..n]), steps[n]);
      AddedIsAsked(steps[..n], steps[n]);
    }
  }

  lemma NothingSubmitted()
    ensures Chunks(Initial().chain.submitted) == [] && !Initial().hasWriter
  {
  }

  /**
   * In every interleaving of writes, heartbeats, drains, errors, aborts and closes, the response
   * receives a prefix of what was asked for, in order; no write succeeds after a failed one; and the
   * head is written at most once.
   */
  lemma AskedChunksArriveInOrder(steps: seq<Step>)
    requires Valid(steps)
    ensures var s := After(steps);
            && s.chain.handed <= Asked(steps)
            && (forall i, j :: 0 <= i < j < |s.chain.results| && !s.chain.results[i] ==> !s.chain.results[j])
            && s.response.heads <= 1
  {
    hide After, Valid, Asked;
    ChunksArriveInOrder(steps);
    SubmittedIsAsked(steps);
  }

  // ----- disconnects

  /** Nothing is handed over from a disconnect on, whatever was queued or is still submitted. */
  lemma DisconnectStopsEverything(steps: seq<Step>, i: nat)
    requires Valid(steps) && i < |steps| && (steps[i].RequestAborted? || steps[i].ResponseClose?)
    ensures Valid(steps[..i])
    ensures After(steps).chain.handed == After(steps[..i]).chain.handed
  {
    hide After, Valid;
    PrefixIsValid(steps, i);
    PrefixIsValid(steps, i + 1);
    assert steps[..i] + [steps[i]] == steps[..i + 1];
    DisconnectAborts(steps[..i], steps[i]);
    NothingEverAfterEnd(steps, i + 1);
  }

  lemma DisconnectAborts(before: seq<Step>, step: Step)
    requires Valid(before) && Valid(before + [step]) && (step.RequestAborted? || step.ResponseClose?)
    ensures Unwritable(After(before + [step])) && After(before + [step]).chain.handed == After(before).chain.handed
  {
    assert (before + [step])[..|before|] == before;
    RunKeepsInv(before);
  }

  lemma {:induction false} PrefixIsValid(steps: seq<Step>, i: nat)
    requires Valid(steps) && i <= |steps|
    ensures Valid(steps[..i])
    decreases |steps|
  {
    if i == |steps| {
      assert steps[..i] == steps;
    } else {
      assert steps[..|steps| - 1][..i] == steps[..i];
      PrefixIsValid(steps[..|steps| - 1], i);
    }
  }

  /** A failed write of anything but the error report disconnects. */
  ghost predicate FailureDisconnects(s: State) {
    |s.chain.results| <= |s.chain.submitted|
    && forall i :: 0 <= i < |s.chain.results| && !s.chain.results[i] && s.chain.submitted[i].origin != FromError ==> s.aborted
  }

  lemma StepKeepsDisconnecting(s: State, step: Step)
    requires FailureDisconnects(s) && Enabled(s, step) && WaitsForALink(s.chain)
    ensures FailureDisconnects(Next(s, step))
  {
  }

  lemma {:induction false} FailedWritesDisconnect(steps: seq<Step>)
    requires Valid(steps)
    ensures FailureDisconnects(After(steps))
  {
    hide Next, Enabled;
    if steps != [] {
      var n := |steps| - 1;
      FailedWritesDisconnect(steps[..n]);
      StepKeepsDisconnecting(After(steps[..n]), steps[n]);
    }
  }

  // ----- the source throws

  /**
   * What a failure of the source does. Before the stream is open it is answered with one head and
   * no chunk; after a disconnect nothing more happens; without an encoder the response is
   * destroyed; otherwise the report is asked for last, and the response ends once it has settled.
   */
  lemma ThrowIsAnswered(steps: seq<Step>, report: Option<string>)
    requires Valid(steps) && Enabled(After(steps), SourceThrows(report))
    ensures WaitsForALink(After(steps).chain)
    ensures var s := After(steps);
            var s' := Next(s, SourceThrows(report));
            if !Opened(steps) then s'.response.ended && s'.response.heads == 1 && s'.chain.handed == [] && s'.phase.Done?
            else if s.aborted then s'.response == s.response && s'.phase.Done?
            else if report.None? then s'.response.destroyed && !s'.response.ended && s'.phase.Done?
            else s'.response == s.response && s'.phase == Reporting(|s.chain.submitted| + 1)
  {
    hide Opened, After, Valid;
    RunKeepsInv(steps);
    SubmittedIsAsked(steps);
  }

  // ----- the frames of an undisturbed stream

  /** The frames that the source wrote, in order. */
  function Frames(steps: seq<Step>): seq<string> {
    if steps == [] then []
    else
      var n := |steps| - 1;
      Frames(steps[..n]) + if steps[n].Write? then [steps[n].frame] else []
  }

  function IsNoHeartbeat(): string -> bool {
    (chunk: string) => chunk != ": heartbeat\n\n"
  }

  lemma CalmPrefix(steps: seq<Step>, n: nat)
    requires AllCalm(steps) && n <= |steps|
    ensures AllCalm(steps[..n])
  {
    forall i | 0 <= i < n ensures IsCalm(steps[..n][i]) && (steps[..n][i].Write? ==> Ready in steps[..n][..i]) {
      assert steps[..n][..i] == steps[..i];
    }
  }

  lemma {:induction false} CalmOpens(steps: seq<Step>)
    requires Valid(steps) && AllCalm(steps)
    ensures Opened(steps) <==> Ready in steps
  {
    hide After, AllCalm;
    if steps != [] {
      var n := |steps| - 1;
      CalmPrefix(steps, n);
      assert Valid(steps[..n]) by { PrefixIsValid(steps, n); }
      CalmOpens(steps[..n]);
      CalmRunStaysConnected(steps[..n]);
      assert steps == steps[..n] + [steps[n]];
    }
  }

  /** Leaving heartbeats aside, an undisturbed run asks for the source's frames and nothing else. */
  lemma {:induction false} CalmAsksForFrames(steps: seq<Step>)
    requires Valid(steps) && AllCalm(steps)
    ensures Filter(Asked(steps), IsNoHeartbeat()) == Filter(Frames(steps), IsNoHeartbeat())
  {
    hide After, Opened, Filter, Asks;
    if steps == [] {
      assert Asked(steps) == Frames(steps);
    } else {
      var n := |steps| - 1;
      CalmPrefix(steps, n);
      assert Valid(steps[..n]) by { PrefixIsValid(steps, n); }
      CalmAsksForFrames(steps[..n]);
      CalmStepAsks(steps);
      FilterConcat(Asked(steps[..n]), Asks(steps[..n], steps[n]), IsNoHeartbeat());
      FilterConcat(Frames(steps[..n]), if steps[n].Write? then [steps[n].frame] else [], IsNoHeartbeat());
    }
  }

  lemma CalmStepAsks(steps: seq<Step>)
    requires steps != [] && Valid(steps) && AllCalm(steps) && Valid(steps[..|steps| - 1])
    ensures var n := |steps| - 1;
            Filter(Asks(steps[..n], steps[n]), IsNoHeartbeat())
            == Filter(if steps[n].Write? then [steps[n].frame] else [], IsNoHeartbeat())
  {
    hide After, Opened;
    var n := |steps| - 1;
    CalmPrefix(steps, n);
    CalmOpens(steps[..n]);
    var heartbeat := [": heartbeat\n\n"];
    assert Filter(heartbeat, IsNoHeartbeat()) == Filter(heartbeat[1..], IsNoHeartbeat());
  }

  /**
   * An undisturbed stream that is finished has handed over, in order and apart from heartbeats,
   * every frame that the source wrote before it returned, and the response has ended.
   */
  lemma UndisturbedStreamCarriesTheFrames(before: seq<Step>, later: seq<Step>)
    requires Valid(before) && Valid(before + [SourceReturns] + later) && AllCalm(before + [SourceReturns] + later)
    requires Enabled(After(before + [SourceReturns] + later), Finish)
    ensures var s := After(before + [SourceReturns] + later);
            && WaitsForALink(s.chain)
            && Next(s, Finish).response.ended
            && Filter(Frames(before), IsNoHeartbeat()) <= Filter(Next(s, Finish).chain.handed, IsNoHeartbeat())
  {
    hide Next, After, Valid, AllCalm, Filter, Enabled;
    var steps := before + [SourceReturns] + later;
    UndisturbedStreamEndsComplete(before, later);
    CalmPrefix(steps, |before|);
    assert steps[..|before|] == before;
    CalmAsksForFrames(before);
    SubmittedIsAsked(before);
    var handed := Next(After(steps), Finish).chain.handed;
    assert handed == Asked(before) + handed[|Asked(before)|..];
    FilterConcat(Asked(before), handed[|Asked(before)|..], IsNoHeartbeat());
  }

  // ----- every undisturbed stream can be finished

  lemma Extend(steps: seq<Step>, step: Step)
    requires Valid(steps) && Enabled(After(steps), step)
    ensures WaitsForALink(After(steps).chain)
    ensures Valid(steps + [step]) && After(steps + [step]) == Next(After(steps), step)
  {
    hide Next, Enabled;
    RunKeepsInv(steps);
    OrderWaits(After(steps).chain);
    assert (steps + [step])[..|steps|] == steps;
  }

  lemma CalmExtend(steps: seq<Step>, step: Step)
    requires AllCalm(steps) && IsCalm(step) && !step.Write?
    ensures AllCalm(steps + [step])
  {
    var more := steps + [step];
    forall i | 0 <= i < |more| ensures IsCalm(more[i]) && (more[i].Write? ==> Ready in more[..i]) {
      if i < |steps| {
        assert more[..i] == steps[..i];
      }
    }
  }

  /** The next link settles: by a drain if its chunk is out already, else by an accepted write. */
  lemma SettlesNext(before: seq<Step>) returns (step: Step)
    requires Valid(before) && AllCalm(before)
    requires |After(before).chain.results| < |After(before).chain.submitted|
    ensures Valid(before + [step]) && AllCalm(before + [step])
    ensures var s, s' := After(before), After(before + [step]);
            && |s'.chain.results| == |s.chain.results| + 1
            && s'.chain.submitted == s.chain.submitted && s'.phase == s.phase
  {
    hide After, Valid, AllCalm;
    step := if After(before).chain.waiting then Drain else RunLink(Accepted);
    Extend(before, step);
    CalmExtend(before, step);
  }

  lemma {:induction false} SettlesAll(before: seq<Step>) returns (later: seq<Step>)
    requires Valid(before) && AllCalm(before)
    ensures Valid(before + later) && AllCalm(before + later)
    ensures var s, s' := After(before), After(before + later);
            && |s'.chain.results| == |s'.chain.submitted|
            && s'.chain.submitted == s.chain.submitted && s'.phase == s.phase
    decreases |After(before).chain.submitted| - |After(before).chain.results|
  {
    hide After, Valid, AllCalm;
    assert |After(before).chain.results| <= |After(before).chain.submitted| by { ResultsFit(before); }
    if |After(before).chain.results| == |After(before).chain.submitted| {
      later := [];
      assert before + [] == before;
    } else {
      var step := SettlesNext(before);
      var rest := SettlesAll(before + [step]);
      later := [step] + rest;
      assert before + later == before + [step] + rest;
    }
  }

  lemma ResultsFit(steps: seq<Step>)
    requires Valid(steps)
    ensures |After(steps).chain.results| <= |After(steps).chain.submitted|
  {
    RunKeepsInv(steps);
  }

  /**
   * However far an undisturbed run has come, the source can return and the stream can be finished;
   * the response has then received everything asked for, in order, and has ended.
   */
  lemma UndisturbedStreamCanFinish(before: seq<Step>) returns (later: seq<Step>)
    requires Valid(before) && AllCalm(before) && After(before).phase.Running?
    ensures Valid(before + [SourceReturns] + later) && AllCalm(before + [SourceReturns] + later)
    ensures var s := After(before + [SourceReturns] + later);
            && Enabled(s, Finish) && WaitsForALink(s.chain)
            && Next(s, Finish).response.ended && Next(s, Finish).chain.handed == Asked(before)
  {
    hide After, Valid, AllCalm, Asked;
    Extend(before, SourceReturns);
    CalmExtend(before, SourceReturns);
    ReturningFlushes(After(before));
    var returned := before + [SourceReturns];
    later := SettlesAll(returned);
    var steps := returned + later;
    var s := After(steps);
    assert Enabled(s, Finish);
    UndisturbedStreamEndsComplete(before, later);
    SubmittedIsAsked(before);
    UndisturbedRunLosesNothing(steps);
    RunKeepsInv(steps);
    FinishEnds(s);
    assert |s.chain.handed| <= |s.chain.submitted|;
    assert Chunks(s.chain.submitted) == Asked(before);
  }
}
