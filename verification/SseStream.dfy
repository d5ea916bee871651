/**
 * One server-sent-events response: a source and a heartbeat timer submit chunks to a writer whose
 * promise chain hands them to the response one at a time, under backpressure, disconnects and
 * failures. Everything that can happen between two awaits is one step.
 */
module SseStream {
  import opened Options

  datatype Origin = FromReady | FromSource | FromTimer | FromError

  datatype Submission = Submission(chunk: string, origin: Origin)

  const HEARTBEAT := ": heartbeat\n\n"

  datatype Phase =
    | Running                  // the source has not settled
    | Flushing(links: nat)     // the source returned; waiting for the chain as it was then
    | Reporting(links: nat)    // the source threw; waiting for the error chunk
    | Done

  /**
   * The writer's promise chain. `results` are the outcomes of its settled links, oldest first;
   * when `waiting`, the next link has handed its chunk over and waits for a drain. `handed` are
   * the chunks that the response has been given.
   */
  datatype Chain = Chain(submitted: seq<Submission>, results: seq<bool>, waiting: bool, handed: seq<string>)

  datatype Response = Response(heads: nat, headersSent: bool, ended: bool, destroyed: bool)

  datatype State = State(
    phase: Phase,
    aborted: bool,
    response: Response,
    hasWriter: bool,
    chain: Chain,
    timerOn: bool,
    heartbeatInFlight: bool)

  function Initial(): State {
    State(Running, false, Response(0, false, false, false), false, Chain([], [], false, []), false, false)
  }

  /** How `response.write` went. */
  datatype Outcome = Accepted | Backpressure | Threw

  datatype Step =
    | Ready
    | Write(frame: string)
    | StartTimer
    | Tick
    | RunLink(outcome: Outcome)
    | Drain
    | ResponseError
    | ResponseClose
    | RequestAborted
    | SourceReturns
    | SourceThrows(report: Option<string>)
    | Finish

  ghost predicate WaitsForALink(c: Chain) { c.waiting ==> |c.results| < |c.submitted| }

  predicate Enabled(s: State, step: Step) {
    match step
    case Ready => s.phase.Running?
    case Write(_) => s.phase.Running?
    case StartTimer => !s.timerOn && s.chain.results != [] && s.chain.results[0]
    case Tick => s.timerOn
    case RunLink(_) => !s.chain.waiting && |s.chain.results| < |s.chain.submitted|
    case Drain => s.chain.waiting
    case ResponseError => s.chain.waiting
    case ResponseClose => true
    case RequestAborted => true
    case SourceReturns => s.phase.Running?
    case SourceThrows(_) => s.phase.Running?
    case Finish => (s.phase.Flushing? || s.phase.Reporting?) && |s.chain.results| >= s.phase.links
  }

  function Submit(s: State, chunk: string, origin: Origin): State {
    s.(chain := s.chain.(submitted := s.chain.submitted + [Submission(chunk, origin)]))
  }

  function SettleLink(c: Chain, written: bool): Chain {
    c.(results := c.results + [written], waiting := false)
  }

  function HandOver(c: Chain): Chain
    requires |c.results| < |c.submitted|
  {
    c.(handed := c.handed + [c.submitted[|c.results|].chunk], waiting := true)
  }

  /** The next link settles; a failed write of the source, of ready or of the timer disconnects. */
  function Settle(s: State, written: bool): State
    requires |s.chain.results| < |s.chain.submitted|
  {
    var origin := s.chain.submitted[|s.chain.results|].origin;
    s.(chain := SettleLink(s.chain, written),
       heartbeatInFlight := s.heartbeatInFlight && origin != FromTimer,
       aborted := s.aborted || (!written && origin != FromError))
  }

  predicate Unwritable(s: State) { s.aborted || s.response.destroyed || s.response.ended }

  predicate PreviousSucceeded(c: Chain) { c.results == [] || c.results[|c.results| - 1] }

  function RunOneLink(s: State, outcome: Outcome): State
    requires |s.chain.results| < |s.chain.submitted|
  {
    if !PreviousSucceeded(s.chain) || Unwritable(s) || outcome == Threw then Settle(s, false)
    else
      var written := s.(chain := HandOver(s.chain));
      if outcome == Accepted then Settle(written, true) else written
  }

  function Disconnect(s: State): State
    requires WaitsForALink(s.chain)
  {
    if s.chain.waiting then Settle(s.(aborted := true), false) else s.(aborted := true)
  }

  function SendHead(r: Response): Response { r.(heads := r.heads + 1, headersSent := true) }

  function Next(s: State, step: Step): State
    requires Enabled(s, step) && WaitsForALink(s.chain)
  {
    match step
    case Ready =>
      if s.hasWriter || s.aborted then s
      else Submit(s.(response := SendHead(s.response), hasWriter := true), HEARTBEAT, FromReady)
    case Write(frame) => if s.hasWriter then Submit(s, frame, FromSource) else Disconnect(s)
    case StartTimer => s.(timerOn := true)
    case Tick =>
      if s.heartbeatInFlight || s.aborted || !s.hasWriter then s
      else Submit(s.(heartbeatInFlight := true), HEARTBEAT, FromTimer)
    case RunLink(outcome) => RunOneLink(s, outcome)
    case Drain => Settle(s, true)
    case ResponseError => Settle(s, false)
    case ResponseClose => Disconnect(s.(response := s.response.(destroyed := true)))
    case RequestAborted => Disconnect(s)
    case SourceReturns => s.(phase := Flushing(|s.chain.submitted|), timerOn := false)
    case SourceThrows(report) =>
      if !s.response.headersSent then Close(s, SendHead(s.response).(ended := true))
      else if s.aborted then Close(s, s.response)
      else if report.None? || !s.hasWriter then Close(s, s.response.(destroyed := true))
      else
        var reported := Submit(s, report.value, FromError);
        reported.(phase := Reporting(|reported.chain.submitted|))
    case Finish =>
      // Ending a response whose head was never written writes it.
      Close(s, (if s.response.headersSent then s.response else SendHead(s.response)).(ended := true))
  }

  /** The handler is left: its `finally` stops the timer and aborts. */
  function Close(s: State, response: Response): State
    requires WaitsForALink(s.chain)
  {
    Disconnect(s.(phase := Done, response := response, timerOn := false))
  }

  // ----- the chain

  function Chunks(submitted: seq<Submission>): (r: seq<string>)
    ensures |r| == |submitted| && forall i :: 0 <= i < |r| ==> r[i] == submitted[i].chunk
  {
    seq(|submitted|, i requires 0 <= i < |submitted| => submitted[i].chunk)
  }

  ghost predicate AllTrue(bs: seq<bool>) { forall i :: 0 <= i < |bs| ==> bs[i] }

  /** Once a link has failed, every later link has failed. */
  ghost predicate Sticky(bs: seq<bool>) {
    forall i, j :: 0 <= i < j < |bs| && !bs[i] ==> !bs[j]
  }

  ghost predicate InOrder(c: Chain) {
    && |c.results| <= |c.submitted|
    && |c.handed| <= |c.submitted|
    && c.handed == Chunks(c.submitted)[..|c.handed|]
    && Sticky(c.results)
    && (c.waiting ==> AllTrue(c.results) && |c.results| < |c.submitted| && |c.handed| == |c.results| + 1)
    && (!c.waiting && AllTrue(c.results) ==> |c.handed| == |c.results|)
    && (forall i :: 0 <= i < |c.results| && c.results[i] ==> i < |c.handed|)
  }

  lemma SubmitKeepsOrder(c: Chain, x: Submission)
    requires InOrder(c)
    ensures InOrder(c.(submitted := c.submitted + [x]))
  {
    assert Chunks(c.submitted + [x])[..|c.handed|] == Chunks(c.submitted)[..|c.handed|];
  }

  lemma StickyAppend(bs: seq<bool>, b: bool)
    requires Sticky(bs) && (b ==> AllTrue(bs))
    ensures Sticky(bs + [b])
  {
  }

  lemma SettleKeepsOrder(c: Chain, written: bool)
    requires InOrder(c) && |c.results| < |c.submitted| && (written ==> c.waiting)
    ensures InOrder(SettleLink(c, written))
  {
    var c' := SettleLink(c, written);
    var n := |c.results|;
    StickyAppend(c.results, written);
    assert c'.results[n] == written;
    forall i | 0 <= i < |c'.results| && c'.results[i] ensures i < |c'.handed| {
      assert i < n ==> c'.results[i] == c.results[i];
    }
    assert AllTrue(c'.results) ==> c'.results[n];
  }

  lemma LastTrueMeansAllTrue(c: Chain)
    requires Sticky(c.results) && PreviousSucceeded(c)
    ensures AllTrue(c.results)
  {
  }

  lemma HandOverKeepsOrder(c: Chain)
    requires InOrder(c) && !c.waiting && PreviousSucceeded(c) && |c.results| < |c.submitted|
    ensures InOrder(HandOver(c))
  {
    LastTrueMeansAllTrue(c);
    assert HandOver(c).handed == Chunks(c.submitted)[..|c.handed| + 1];
  }

  lemma DisconnectKeepsOrder(s: State)
    requires InOrder(s.chain)
    ensures InOrder(Disconnect(s).chain)
  {
    if s.chain.waiting {
      SettleKeepsOrder(s.chain, false);
    }
  }

  lemma RunLinkKeepsOrder(s: State, outcome: Outcome)
    requires InOrder(s.chain) && !s.chain.waiting && |s.chain.results| < |s.chain.submitted|
    ensures InOrder(RunOneLink(s, outcome).chain)
  {
    hide InOrder;
    if !PreviousSucceeded(s.chain) || Unwritable(s) || outcome == Threw {
      SettleKeepsOrder(s.chain, false);
    } else {
      HandOverKeepsOrder(s.chain);
      if outcome == Accepted {
        SettleKeepsOrder(HandOver(s.chain), true);
      }
    }
  }

  lemma OrderWaits(c: Chain)
    requires InOrder(c)
    ensures WaitsForALink(c)
  {
  }

  lemma SubmittingKeepsOrder(s: State, chunk: string, origin: Origin)
    requires InOrder(s.chain)
    ensures InOrder(Submit(s, chunk, origin).chain)
  {
    SubmitKeepsOrder(s.chain, Submission(chunk, origin));
  }

  lemma SettlingKeepsOrder(s: State, written: bool)
    requires InOrder(s.chain) && s.chain.waiting
    ensures InOrder(Settle(s, written).chain)
  {
    SettleKeepsOrder(s.chain, written);
  }

  lemma StepKeepsOrder(s: State, step: Step)
    requires InOrder(s.chain) && Enabled(s, step)
    ensures InOrder(Next(s, step).chain)
  {
    hide InOrder, Disconnect, RunOneLink, Close, Settle, Submit, Chunks;
    OrderWaits(s.chain);
    match step
    case Ready => SubmittingKeepsOrder(s.(response := SendHead(s.response), hasWriter := true), HEARTBEAT, FromReady);
    case Write(frame) =>
      SubmittingKeepsOrder(s, frame, FromSource);
      DisconnectKeepsOrder(s);
    case StartTimer =>
    case Tick => SubmittingKeepsOrder(s.(heartbeatInFlight := true), HEARTBEAT, FromTimer);
    case RunLink(outcome) => RunLinkKeepsOrder(s, outcome);
    case Drain => SettlingKeepsOrder(s, true);
    case ResponseError => SettlingKeepsOrder(s, false);
    case ResponseClose => DisconnectKeepsOrder(s.(response := s.response.(destroyed := true)));
    case RequestAborted => DisconnectKeepsOrder(s);
    case SourceReturns =>
    case SourceThrows(report) => ThrowKeepsOrder(s, report);
    case Finish =>
      CloseKeepsOrder(s, (if s.response.headersSent then s.response else SendHead(s.response)).(ended := true));
  }

  lemma ThrowKeepsOrder(s: State, report: Option<string>)
    requires InOrder(s.chain) && Enabled(s, SourceThrows(report))
    ensures InOrder(Next(s, SourceThrows(report)).chain)
  {
    hide InOrder, Close;
    OrderWaits(s.chain);
    if !s.response.headersSent {
      CloseKeepsOrder(s, SendHead(s.response).(ended := true));
    } else if s.aborted {
      CloseKeepsOrder(s, s.response);
    } else if report.None? || !s.hasWriter {
      CloseKeepsOrder(s, s.response.(destroyed := true));
    } else {
      SubmitKeepsOrder(s.chain, Submission(report.value, FromError));
    }
  }

  lemma CloseKeepsOrder(s: State, response: Response)
    requires InOrder(s.chain)
    ensures InOrder(Close(s, response).chain)
  {
    DisconnectKeepsOrder(s.(phase := Done, response := response, timerOn := false));
  }

  // ----- headers and heartbeats

  ghost predicate HeadersOnce(s: State) {
    && s.response.heads == (if s.response.headersSent then 1 else 0)
    && (s.hasWriter ==> s.response.headersSent)
    && (s.chain.submitted != [] ==> s.hasWriter)
    && (s.response.headersSent && !s.hasWriter ==> s.phase.Done?)
    && (s.response.ended ==> s.phase.Done?)
    && (s.phase.Done? ==> s.aborted)
  }

  lemma StepKeepsHeaders(s: State, step: Step)
    requires HeadersOnce(s) && Enabled(s, step) && WaitsForALink(s.chain)
    ensures HeadersOnce(Next(s, step))
  {
  }

  predicate IsPendingTimer(c: Chain, i: nat) {
    |c.results| <= i < |c.submitted| && c.submitted[i].origin == FromTimer
  }

  /** At most one timer heartbeat is in the chain without an outcome. */
  ghost predicate OneHeartbeat(s: State) {
    && (forall i: nat, j: nat :: IsPendingTimer(s.chain, i) && IsPendingTimer(s.chain, j) ==> i == j)
    && (forall i: nat :: IsPendingTimer(s.chain, i) ==> s.heartbeatInFlight)
  }

  lemma SubmitKeepsHeartbeat(s: State, chunk: string, origin: Origin)
    requires OneHeartbeat(s) && origin != FromTimer
    ensures OneHeartbeat(Submit(s, chunk, origin))
  {
    var s' := Submit(s, chunk, origin);
    assert forall i: nat :: IsPendingTimer(s'.chain, i) ==> IsPendingTimer(s.chain, i);
  }

  lemma TickKeepsHeartbeat(s: State)
    requires OneHeartbeat(s) && !s.heartbeatInFlight
    ensures OneHeartbeat(Submit(s.(heartbeatInFlight := true), HEARTBEAT, FromTimer))
  {
    var s' := Submit(s.(heartbeatInFlight := true), HEARTBEAT, FromTimer);
    assert forall i: nat :: IsPendingTimer(s'.chain, i) && i < |s.chain.submitted| ==> IsPendingTimer(s.chain, i);
  }

  lemma SettleKeepsHeartbeat(s: State, written: bool)
    requires OneHeartbeat(s) && |s.chain.results| < |s.chain.submitted|
    ensures OneHeartbeat(Settle(s, written))
  {
    var s', n := Settle(s, written), |s.chain.results|;
    assert forall i: nat :: IsPendingTimer(s'.chain, i) ==> IsPendingTimer(s.chain, i) && i != n;
    assert s.chain.submitted[n].origin == FromTimer ==> IsPendingTimer(s.chain, n);
  }

  lemma DisconnectKeepsHeartbeat(s: State)
    requires OneHeartbeat(s) && WaitsForALink(s.chain)
    ensures OneHeartbeat(Disconnect(s))
  {
    if s.chain.waiting {
      SettleKeepsHeartbeat(s.(aborted := true), false);
    }
  }

  lemma RunLinkKeepsHeartbeat(s: State, outcome: Outcome)
    requires OneHeartbeat(s) && |s.chain.results| < |s.chain.submitted|
    ensures OneHeartbeat(RunOneLink(s, outcome))
  {
    var handed := s.(chain := HandOver(s.chain));
    assert forall i: nat :: IsPendingTimer(handed.chain, i) ==> IsPendingTimer(s.chain, i);
    SettleKeepsHeartbeat(s, false);
    SettleKeepsHeartbeat(handed, true);
  }

  lemma StepKeepsHeartbeat(s: State, step: Step)
    requires OneHeartbeat(s) && Enabled(s, step) && WaitsForALink(s.chain)
    ensures OneHeartbeat(Next(s, step))
  {
    hide Disconnect, RunOneLink, Settle, Submit;
    match step
    case Ready => SubmitKeepsHeartbeat(s.(response := SendHead(s.response), hasWriter := true), HEARTBEAT, FromReady);
    case Write(frame) =>
      SubmitKeepsHeartbeat(s, frame, FromSource);
      DisconnectKeepsHeartbeat(s);
    case StartTimer =>
    case Tick =>
      if !s.heartbeatInFlight {
        TickKeepsHeartbeat(s);
      }
    case RunLink(outcome) => RunLinkKeepsHeartbeat(s, outcome);
    case Drain => SettleKeepsHeartbeat(s, true);
    case ResponseError => SettleKeepsHeartbeat(s, false);
    case ResponseClose => DisconnectKeepsHeartbeat(s.(response := s.response.(destroyed := true)));
    case RequestAborted => DisconnectKeepsHeartbeat(s);
    case SourceReturns =>
    case SourceThrows(report) =>
      CloseKeepsHeartbeat(s, SendHead(s.response).(ended := true));
      CloseKeepsHeartbeat(s, s.response);
      CloseKeepsHeartbeat(s, s.response.(destroyed := true));
      if report.Some? {
        SubmitKeepsHeartbeat(s, report.value, FromError);
      }
    case Finish =>
      CloseKeepsHeartbeat(s, (if s.response.headersSent then s.response else SendHead(s.response)).(ended := true));
  }

  lemma CloseKeepsHeartbeat(s: State, response: Response)
    requires OneHeartbeat(s) && WaitsForALink(s.chain)
    ensures OneHeartbeat(Close(s, response))
  {
    DisconnectKeepsHeartbeat(s.(phase := Done, response := response, timerOn := false));
  }

  // ----- every run

  ghost predicate Inv(s: State) {
    InOrder(s.chain) && HeadersOnce(s) && OneHeartbeat(s)
  }

  lemma StepKeepsInv(s: State, step: Step)
    requires Inv(s) && Enabled(s, step)
    ensures Inv(Next(s, step))
  {
    assert WaitsForALink(s.chain);
    hide Next, InOrder, HeadersOnce, OneHeartbeat;
    StepKeepsOrder(s, step);
    StepKeepsHeaders(s, step);
    StepKeepsHeartbeat(s, step);
  }

  ghost predicate Valid(steps: seq<Step>)
    decreases |steps|, 0
  {
    steps == [] || (
      var n := |steps| - 1;
      Valid(steps[..n]) && WaitsForALink(After(steps[..n]).chain) && Enabled(After(steps[..n]), steps[n]))
  }

  ghost function After(steps: seq<Step>): State
    requires Valid(steps)
    decreases |steps|, 1
  {
    if steps == [] then Initial() else Next(After(steps[..|steps| - 1]), steps[|steps| - 1])
  }

  lemma {:induction false} RunKeepsInv(steps: seq<Step>)
    requires Valid(steps)
    ensures Inv(After(steps))
  {
    hide Inv, Next, Enabled;
    if steps == [] {
      InitialInv();
    } else {
      var n := |steps| - 1;
      RunKeepsInv(steps[..n]);
      StepKeepsInv(After(steps[..n]), steps[n]);
    }
  }

  lemma InitialInv()
    ensures Inv(Initial())
  {
  }

  /**
   * In every interleaving: the response receives a prefix of the submitted chunks in call order,
   * no write succeeds after a failed one, and the head is written at most once.
   */
  lemma ChunksArriveInOrder(steps: seq<Step>)
    requires Valid(steps)
    ensures var s := After(steps);
            && s.chain.handed <= Chunks(s.chain.submitted)
            && Sticky(s.chain.results)
            && s.response.heads <= 1
  {
    RunKeepsInv(steps);
  }

  /** Timer heartbeats never pile up behind a slow client. */
  lemma HeartbeatsDoNotPileUp(steps: seq<Step>, i: nat, j: nat)
    requires Valid(steps) && IsPendingTimer(After(steps).chain, i) && IsPendingTimer(After(steps).chain, j)
    ensures i == j
  {
    RunKeepsInv(steps);
  }

  /** After the response has ended or been closed, no step hands it another chunk. */
  lemma NothingAfterEnd(s: State, step: Step)
    requires Inv(s) && Enabled(s, step) && Unwritable(s)
    ensures Next(s, step).chain.handed == s.chain.handed
    ensures Unwritable(Next(s, step))
  {
  }

  lemma {:induction false} NothingEverAfterEnd(steps: seq<Step>, i: nat)
    requires Valid(steps) && i <= |steps| && Valid(steps[..i]) && Unwritable(After(steps[..i]))
    ensures After(steps).chain.handed == After(steps[..i]).chain.handed && Unwritable(After(steps))
    decreases |steps|
  {
    hide Next, Enabled, Inv, Unwritable;
    if i == |steps| {
      assert steps[..i] == steps;
    } else {
      var n := |steps| - 1;
      assert steps[..n][..i] == steps[..i];
      NothingEverAfterEnd(steps[..n], i);
      RunKeepsInv(steps[..n]);
      NothingAfterEnd(After(steps[..n]), steps[n]);
    }
  }

  /**
   * When the flush after the source's return reports success, everything submitted until then
   * has been handed over before the response ends.
   */
  lemma FlushedChunksAreHanded(steps: seq<Step>)
    requires Valid(steps) && After(steps).phase.Flushing? && Enabled(After(steps), Finish)
    requires var s := After(steps); s.phase.links > 0 ==> s.chain.results[s.phase.links - 1]
    ensures var s := After(steps);
            && s.phase.links <= |s.chain.submitted|
            && Chunks(s.chain.submitted)[..s.phase.links] <= s.chain.handed
  {
    hide Next;
    RunKeepsInv(steps);
    var s := After(steps);
    assert s.chain.handed == Chunks(s.chain.submitted)[..|s.chain.handed|];
  }

  // ----- undisturbed runs

  /** Nothing throws, breaks or closes; backpressure and heartbeats may occur at any time. */
  predicate IsCalm(step: Step) {
    match step
    case RunLink(outcome) => outcome != Threw
    case ResponseError => false
    case ResponseClose => false
    case RequestAborted => false
    case SourceThrows(_) => false
    case Finish => false
    case _ => true
  }

  ghost predicate AllCalm(steps: seq<Step>) {
    forall i :: 0 <= i < |steps| ==> IsCalm(steps[i]) && (steps[i].Write? ==> Ready in steps[..i])
  }

  ghost predicate Connected(s: State) {
    !Unwritable(s) && AllTrue(s.chain.results) && (s.phase.Running? || s.phase.Flushing?)
  }

  lemma SuccessIsKept(bs: seq<bool>)
    requires AllTrue(bs)
    ensures AllTrue(bs + [true])
  {
  }

  lemma CalmStepKeepsConnected(s: State, step: Step)
    requires Inv(s) && Enabled(s, step) && IsCalm(step) && Connected(s)
    requires step.Write? ==> s.hasWriter
    ensures WaitsForALink(s.chain) && Connected(Next(s, step))
    ensures s.hasWriter || step.Ready? ==> Next(s, step).hasWriter
  {
    assert WaitsForALink(s.chain);
    hide Inv, AllTrue;
    SuccessIsKept(s.chain.results);
    if step.RunLink? {
      assert PreviousSucceeded(s.chain) by { AllTrueMeansLastTrue(s.chain); }
    }
  }

  lemma AllTrueMeansLastTrue(c: Chain)
    requires AllTrue(c.results)
    ensures PreviousSucceeded(c)
  {
  }

  lemma {:induction false} CalmRunStaysConnected(steps: seq<Step>)
    requires Valid(steps) && AllCalm(steps)
    ensures Connected(After(steps)) && (Ready in steps ==> After(steps).hasWriter)
  {
    hide Connected, Next, Enabled, Inv;
    if steps == [] {
      InitiallyConnected();
    } else {
      var n := |steps| - 1;
      forall i | 0 <= i < n ensures IsCalm(steps[..n][i]) && (steps[..n][i].Write? ==> Ready in steps[..n][..i]) {
        assert steps[..n][..i] == steps[..i];
      }
      CalmRunStaysConnected(steps[..n]);
      RunKeepsInv(steps[..n]);
      CalmStepKeepsConnected(After(steps[..n]), steps[n]);
      assert steps == steps[..n] + [steps[n]];
    }
  }

  lemma InitiallyConnected()
    ensures Connected(Initial())
  {
  }

  /**
   * In every undisturbed run no write fails and every chunk whose turn has come has been handed
   * over: the settled ones, and the one that waits for a drain.
   */
  lemma UndisturbedRunLosesNothing(steps: seq<Step>)
    requires Valid(steps) && AllCalm(steps)
    ensures var c := After(steps).chain;
            && AllTrue(c.results)
            && |c.handed| == |c.results| + (if c.waiting then 1 else 0)
            && c.handed <= Chunks(c.submitted)
  {
    CalmRunStaysConnected(steps);
    RunKeepsInv(steps);
  }

  // ----- an undisturbed stream to its end

  lemma StepKeepsSubmitted(s: State, step: Step)
    requires Enabled(s, step) && WaitsForALink(s.chain)
    ensures s.chain.submitted <= Next(s, step).chain.submitted
    ensures s.phase.Flushing? ==> Next(s, step).phase == s.phase || Next(s, step).phase.Done?
    ensures s.phase.Done? ==> Next(s, step).phase.Done?
  {
  }

  /** The flush remembers how much had been submitted when the source returned. */
  lemma {:induction false} FlushRemembers(before: seq<Step>, later: seq<Step>)
    requires Valid(before) && Valid(before + [SourceReturns] + later)
    ensures var s, returned := After(before + [SourceReturns] + later), After(before).chain.submitted;
            && returned <= s.chain.submitted
            && (s.phase.Done? || s.phase == Flushing(|returned|))
    decreases |later|
  {
    hide Next, Enabled;
    var steps := before + [SourceReturns] + later;
    var n := |steps| - 1;
    if later == [] {
      assert steps[..n] == before && steps[n] == SourceReturns;
      ReturningFlushes(After(before));
    } else {
      assert steps[..n] == before + [SourceReturns] + later[..|later| - 1];
      FlushRemembers(before, later[..|later| - 1]);
      StepKeepsSubmitted(After(steps[..n]), steps[n]);
    }
  }

  lemma ReturningFlushes(s: State)
    requires Enabled(s, SourceReturns) && WaitsForALink(s.chain)
    ensures Next(s, SourceReturns).phase == Flushing(|s.chain.submitted|)
    ensures Next(s, SourceReturns).chain == s.chain
  {
  }

  lemma FinishEnds(s: State)
    requires Inv(s) && Enabled(s, Finish)
    ensures WaitsForALink(s.chain)
    ensures Next(s, Finish).response.ended && Next(s, Finish).chain.handed == s.chain.handed
  {
  }

  /**
   * An undisturbed stream that is finished ends the response with everything handed over that had
   * been submitted when the source returned.
   */
  lemma UndisturbedStreamEndsComplete(before: seq<Step>, later: seq<Step>)
    requires Valid(before) && Valid(before + [SourceReturns] + later) && AllCalm(before + [SourceReturns] + later)
    requires Enabled(After(before + [SourceReturns] + later), Finish)
    ensures var s := After(before + [SourceReturns] + later);
            && WaitsForALink(s.chain)
            && Next(s, Finish).response.ended
            && Chunks(After(before).chain.submitted) <= Next(s, Finish).chain.handed
  {
    hide Next, After, Valid, AllCalm, Inv;
    var steps := before + [SourceReturns] + later;
    var s := After(steps);
    RunKeepsInv(steps);
    CalmRunStaysConnected(steps);
    UndisturbedRunLosesNothing(steps);
    FlushRemembers(before, later);
    FinishEnds(s);
    var returned := After(before).chain.submitted;
    assert |returned| <= |s.chain.results| <= |s.chain.handed|;
    assert Chunks(returned) == Chunks(s.chain.submitted)[..|returned|];
  }
}
