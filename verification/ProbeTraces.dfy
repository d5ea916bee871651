/**
 * The probe's records read back as facts about the run itself: an observed receipt is a claim
 * about which browser events happened, and in which order.
 */
module ProbeTraces {
  import opened Options
  import opened FaultReceiptProbe
  import opened ProbeInvariant
  import opened ProbeRuns
  import opened ProbeTheorems
  import Strings

  // ----- what one event does to one record

  /** A record without the probe's conclusions about it. */
  function Facts(r: Record): Record {
    r.(recoveryForTerminalSequence := None, successfulTerminalSequence := None)
  }

  predicate IsAbout(e: Event, key: RequestKey) {
    !e.BindTarget? && !e.Begin? && e.key == key
  }

  function Updated(s: Probe, e: Event, r: Record): Record {
    if !IsAbout(e, r.request.key) then r
    else match e
      case ResponseStarted(_, status) => r.(responseHeadersPending := true, status := Some(status))
      case Response(_, status, receipt) => AfterResponse(s.fault, r, status, receipt)
      case Finished(_) => r.(finished := true)
      case Failure(_, errorText) => AfterFailure(s, r, errorText)
      case _ => r
  }

  ghost predicate SameFacts(rs: seq<Record>, rs': seq<Record>) {
    |rs| == |rs'| && forall i :: 0 <= i < |rs| ==> Facts(rs'[i]) == Facts(rs[i])
  }

  lemma ReconcileKeepsFacts(s: Probe)
    ensures SameFacts(s.requests, Reconcile(s).requests)
    ensures s.sequence <= Reconcile(s).sequence
  {
    if s.fault == ArtifactGapClose {
      RelinkKeepsFacts(s.(requests := Cleared(s.requests)));
    }
  }

  lemma RelinkKeepsFacts(s: Probe)
    ensures SameFacts(s.requests, Relink(s).requests)
    ensures s.sequence <= Relink(s).sequence
  {
  }

  lemma TouchKeepsFacts(s: Probe, i: nat, r: Record)
    requires i < |s.requests|
    ensures SameFacts(s.requests[i := r], Touch(s, i, r).requests)
    ensures s.sequence <= Touch(s, i, r).sequence
  {
    hide Reconcile;
    ReconcileKeepsFacts(PutSynced(s, i, r));
  }

  ghost predicate UpdatesFacts(s: Probe, e: Event, s': Probe) {
    && |s.requests| <= |s'.requests| && s.sequence <= s'.sequence
    && forall i :: 0 <= i < |s.requests| ==> Facts(s'.requests[i]) == Facts(Updated(s, e, s.requests[i]))
  }

  lemma TouchUpdatesFacts(s: Probe, e: Event, before: Probe, n: nat, r: Record)
    requires Registry(s) && n < |s.requests| && IsAbout(e, s.requests[n].request.key)
    requires before == s.(sequence := before.sequence) && s.sequence <= before.sequence
    requires r == Updated(s, e, s.requests[n])
    ensures UpdatesFacts(s, e, Touch(before, n, r))
  {
    hide Touch;
    TouchKeepsFacts(before, n, r);
    forall i | 0 <= i < |s.requests| && i != n ensures Updated(s, e, s.requests[i]) == s.requests[i] {
      KeyFindsItsRecord(s, i);
      KeyFindsItsRecord(s, n);
    }
  }

  lemma UnknownKeyUpdatesNothing(s: Probe, e: Event)
    requires !e.BindTarget? && !e.Begin? && !IsRegistered(s, e.key)
    ensures UpdatesFacts(s, e, s)
  {
    assert forall i :: 0 <= i < |s.requests| ==> !WithKey(e.key).Holds(s.requests[i]);
  }

  lemma FinishedUpdatesFacts(s: Probe, key: RequestKey)
    requires Registry(s)
    ensures UpdatesFacts(s, Finished(key), RecordFinished(s, key))
  {
    forall i | 0 <= i < |s.requests| ensures First(s.requests, WithKey(key)) == i <==> s.requests[i].request.key == key {
      KeyFindsItsRecord(s, i);
    }
  }

  lemma StepUpdatesFacts(s: Probe, e: Event)
    requires Registry(s)
    ensures UpdatesFacts(s, e, Step(s, e))
  {
    hide Touch, Registry, PutSynced, UpdatesFacts;
    match e
    case BindTarget(threadId) => BindUpdatesFacts(s, threadId);
    case Begin(key, url) => BeginUpdatesFacts(s, key, url);
    case Finished(key) => FinishedUpdatesFacts(s, key);
    case ResponseStarted(key, status) =>
      var n := First(s.requests, WithKey(key));
      if n < |s.requests| {
        TouchUpdatesFacts(s, e, s, n, s.requests[n].(responseHeadersPending := true, status := Some(status)));
      } else {
        UnknownKeyUpdatesNothing(s, e);
      }
    case Response(key, status, receipt) =>
      var n := First(s.requests, WithKey(key));
      if n < |s.requests| {
        var r := AfterResponse(s.fault, s.requests[n], status, receipt);
        TouchUpdatesFacts(s, e, s, n, r);
        ReleaseUpdatesNothing(s, e, Touch(s, n, r), n);
      } else {
        UnknownKeyUpdatesNothing(s, e);
      }
    case Failure(key, errorText) =>
      var n := First(s.requests, WithKey(key));
      if n < |s.requests| {
        var later, r := s.(sequence := s.sequence + 1), AfterFailure(s, s.requests[n], errorText);
        TouchUpdatesFacts(s, e, later, n, r);
        ReleaseUpdatesNothing(s, e, Touch(later, n, r), n);
      } else {
        UnknownKeyUpdatesNothing(s, e);
      }
  }

  lemma ReleaseUpdatesNothing(s: Probe, e: Event, s': Probe, i: nat)
    requires UpdatesFacts(s, e, s') && i < |s'.requests|
    ensures UpdatesFacts(s, e, ReleaseIfTerminal(s', i))
  {
  }

  lemma BindUpdatesFacts(s: Probe, threadId: string)
    ensures UpdatesFacts(s, BindTarget(threadId), BindTargetThread(s, threadId))
  {
  }

  lemma BeginUpdatesFacts(s: Probe, key: RequestKey, url: AgentUrl)
    ensures UpdatesFacts(s, Begin(key, url), BeginRequest(s, key, url).0)
  {
    hide NewRecord;
  }

  // ----- records as summaries of the run

  /** Event `b` registered the request of `r`. */
  ghost predicate RegisteredBy(fault: Fault, es: seq<Event>, b: nat, r: Record) {
    && b < |es| && es[b].Begin? && es[b].key == r.request.key
    && var s := Run(fault, es[..b]);
       && Accepts(s, es[b].key, es[b].url)
       && r.request == NewRecord(s, es[b].key, es[b].url, Strings.Trim(es[b].url.threadSegment.value)).request
  }

  ghost predicate FailedSince(es: seq<Event>, b: nat, key: RequestKey) {
    exists j :: b < j < |es| && es[j].Failure? && es[j].key == key
  }

  ghost predicate FinishedSince(es: seq<Event>, b: nat, key: RequestKey) {
    exists j :: b < j < |es| && es[j].Finished? && es[j].key == key
  }

  predicate IsResponseEvent(e: Event, key: RequestKey) {
    (e.ResponseStarted? || e.Response?) && e.key == key
  }

  /** Event `p` is the last word on the response to `key`, and the headers had settled by then. */
  ghost predicate LastResponse(es: seq<Event>, b: nat, key: RequestKey, p: nat) {
    && b < p < |es| && es[p].Response? && es[p].key == key
    && forall j :: p < j < |es| ==> !IsResponseEvent(es[j], key)
  }

  ghost predicate LastFailure(es: seq<Event>, b: nat, key: RequestKey, p: nat) {
    && b < p < |es| && es[p].Failure? && es[p].key == key
    && forall j :: p < j < |es| ==> !(es[j].Failure? && es[j].key == key)
  }

  /** Event `p` is the response that the record shows. */
  ghost predicate ShowsResponse(fault: Fault, es: seq<Event>, b: nat, r: Record, p: nat) {
    && LastResponse(es, b, r.request.key, p)
    && r.status == Some(es[p].status)
    && (r.receiptMatchesFault <==> es[p].receipt == Some(fault.Name()))
    && r.receipt == (if es[p].receipt.None? then Missing else if r.receiptMatchesFault then Exact else Unexpected)
  }

  /** Event `p` is the failure that the record shows. */
  ghost predicate ShowsFailure(fault: Fault, es: seq<Event>, b: nat, r: Record, p: nat) {
    && LastFailure(es, b, r.request.key, p)
    && r.failureSequence == Some(Run(fault, es[..p]).sequence + 1)
    && (r.failureMatchesIntentionalClose <==> es[p].errorText == "net::ERR_ABORTED")
  }

  ghost predicate ToldResponse(fault: Fault, es: seq<Event>, b: nat, r: Record) {
    if !r.responseHeadersPending && r.status.Some?
    then exists p: nat :: ShowsResponse(fault, es, b, r, p)
    else forall p: nat :: !LastResponse(es, b, r.request.key, p)
  }

  ghost predicate ToldFailure(fault: Fault, es: seq<Event>, b: nat, r: Record) {
    r.failed ==> exists p: nat :: ShowsFailure(fault, es, b, r, p)
  }

  /** Everything the record says happened did happen after event `b`, and nothing else did. */
  ghost predicate Told(fault: Fault, es: seq<Event>, b: nat, r: Record) {
    && RegisteredBy(fault, es, b, r)
    && (r.failed <==> FailedSince(es, b, r.request.key))
    && (r.finished <==> FinishedSince(es, b, r.request.key))
    && ToldResponse(fault, es, b, r)
    && ToldFailure(fault, es, b, r)
  }

  lemma MoreFailures(es: seq<Event>, e: Event, b: nat, key: RequestKey)
    requires b < |es|
    ensures FailedSince(es + [e], b, key) <==> FailedSince(es, b, key) || (e.Failure? && e.key == key)
  {
    var es' := es + [e];
    assert es'[|es|] == e;
    if FailedSince(es, b, key) {
      var j :| b < j < |es| && es[j].Failure? && es[j].key == key;
      assert es'[j] == es[j];
    }
  }

  lemma MoreFinishes(es: seq<Event>, e: Event, b: nat, key: RequestKey)
    requires b < |es|
    ensures FinishedSince(es + [e], b, key) <==> FinishedSince(es, b, key) || (e.Finished? && e.key == key)
  {
    var es' := es + [e];
    assert es'[|es|] == e;
    if FinishedSince(es, b, key) {
      var j :| b < j < |es| && es[j].Finished? && es[j].key == key;
      assert es'[j] == es[j];
    }
  }

  lemma ToldResponseGrows(fault: Fault, es: seq<Event>, e: Event, b: nat, r: Record, r': Record)
    requires b < |es| && ToldResponse(fault, es, b, r)
    requires Run(fault, es).fault == fault && Facts(r') == Facts(Updated(Run(fault, es), e, r))
    ensures ToldResponse(fault, es + [e], b, r')
  {
    hide Run;
    var es', key := es + [e], r.request.key;
    assert es'[|es|] == e && forall j :: 0 <= j < |es| ==> es'[j] == es[j];
    if !r'.responseHeadersPending && r'.status.Some? {
      if IsResponseEvent(e, key) {
        assert ShowsResponse(fault, es', b, r', |es|);
      } else {
        var p: nat :| ShowsResponse(fault, es, b, r, p);
        assert ShowsResponse(fault, es', b, r', p);
      }
    } else {
      assert forall p: nat :: LastResponse(es', b, key, p) ==> LastResponse(es, b, key, p) && !IsResponseEvent(e, key);
    }
  }

  lemma ToldFailureGrows(fault: Fault, es: seq<Event>, e: Event, b: nat, r: Record, r': Record)
    requires b < |es| && ToldFailure(fault, es, b, r)
    requires Facts(r') == Facts(Updated(Run(fault, es), e, r))
    ensures ToldFailure(fault, es + [e], b, r')
  {
    hide Run, ShowsFailure, Updated;
    if r'.failed {
      if e.Failure? && e.key == r.request.key {
        FailureIsShown(fault, es, e, b, r, r');
      } else {
        FailureStays(Run(fault, es), e, r, r');
        var p: nat :| ShowsFailure(fault, es, b, r, p);
        FailureStaysShown(fault, es, e, b, r, r', p);
      }
    }
  }

  /** An event other than a failure of the same request leaves the recorded failure alone. */
  lemma FailureStays(s: Probe, e: Event, r: Record, r': Record)
    requires Facts(r') == Facts(Updated(s, e, r)) && !(e.Failure? && e.key == r.request.key)
    ensures r'.request == r.request && r'.failed == r.failed && r'.failureSequence == r.failureSequence
    ensures r'.failureMatchesIntentionalClose == r.failureMatchesIntentionalClose
  {
  }

  lemma FailureIsShown(fault: Fault, es: seq<Event>, e: Event, b: nat, r: Record, r': Record)
    requires b < |es| && e.Failure? && e.key == r.request.key
    requires Facts(r') == Facts(Updated(Run(fault, es), e, r))
    ensures ShowsFailure(fault, es + [e], b, r', |es|)
  {
    hide Run;
    assert (es + [e])[..|es|] == es;
  }

  lemma FailureStaysShown(fault: Fault, es: seq<Event>, e: Event, b: nat, r: Record, r': Record, p: nat)
    requires ShowsFailure(fault, es, b, r, p) && !(e.Failure? && e.key == r.request.key)
    requires r'.request == r.request && r'.failureSequence == r.failureSequence
    requires r'.failureMatchesIntentionalClose == r.failureMatchesIntentionalClose
    ensures ShowsFailure(fault, es + [e], b, r', p)
  {
    hide Run;
    assert (es + [e])[..p] == es[..p];
  }

  lemma RegisteredByGrows(fault: Fault, es: seq<Event>, e: Event, b: nat, r: Record, r': Record)
    requires RegisteredBy(fault, es, b, r) && r'.request == r.request
    ensures RegisteredBy(fault, es + [e], b, r')
  {
    hide Run, Accepts, NewRecord, Strings.Trim;
    assert (es + [e])[..b] == es[..b];
  }

  lemma ToldGrows(fault: Fault, es: seq<Event>, e: Event, b: nat, r: Record, r': Record)
    requires Told(fault, es, b, r)
    requires Run(fault, es).fault == fault && Facts(r') == Facts(Updated(Run(fault, es), e, r))
    ensures Told(fault, es + [e], b, r')
  {
    hide Run, RegisteredBy, FailedSince, FinishedSince, ToldResponse, ToldFailure;
    assert b < |es| by { RegisteredIsInside(fault, es, b, r); }
    RegisteredByGrows(fault, es, e, b, r, r');
    MoreFailures(es, e, b, r.request.key);
    MoreFinishes(es, e, b, r.request.key);
    ToldResponseGrows(fault, es, e, b, r, r');
    ToldFailureGrows(fault, es, e, b, r, r');
  }

  lemma RegisteredIsInside(fault: Fault, es: seq<Event>, b: nat, r: Record)
    requires RegisteredBy(fault, es, b, r)
    ensures b < |es|
  {
  }

  lemma ToldAtBirth(fault: Fault, es: seq<Event>, e: Event, r: Record)
    requires e.Begin? && Accepts(Run(fault, es), e.key, e.url)
    requires r == NewRecord(Run(fault, es), e.key, e.url, Strings.Trim(e.url.threadSegment.value))
    ensures Told(fault, es + [e], |es|, r)
  {
    hide Run, RecoveryAtBegin, Strings.Trim, Injects, SemanticStreamOffset, First;
    assert (es + [e])[..|es|] == es && (es + [e])[|es|] == e;
    assert !r.failed && !r.finished && r.status == None;
  }

  ghost predicate IsTold(fault: Fault, es: seq<Event>, r: Record) {
    exists b: nat :: Told(fault, es, b, r)
  }

  lemma EveryRecordGrows(fault: Fault, es: seq<Event>, e: Event, s: Probe, i: nat)
    requires s == Run(fault, es) && s.fault == fault && Registry(s)
    requires forall j :: 0 <= j < |s.requests| ==> IsTold(fault, es, s.requests[j])
    requires i < |Step(s, e).requests|
    ensures IsTold(fault, es + [e], Step(s, e).requests[i])
  {
    hide Run, Told, Registry, Step;
    var s' := Step(s, e);
    StepUpdatesFacts(s, e);
    if i < |s.requests| {
      var b: nat :| Told(fault, es, b, s.requests[i]);
      ToldGrows(fault, es, e, b, s.requests[i], s'.requests[i]);
    } else {
      NewRecordIsBegun(s, e, i);
      ToldAtBirth(fault, es, e, s'.requests[i]);
    }
  }

  lemma NewRecordIsBegun(s: Probe, e: Event, i: nat)
    requires |s.requests| <= i < |Step(s, e).requests|
    ensures e.Begin? && Accepts(s, e.key, e.url)
    ensures Step(s, e).requests[i] == NewRecord(s, e.key, e.url, Strings.Trim(e.url.threadSegment.value))
  {
    hide Touch, First, NewRecord, Accepts;
  }

  /** After every run, every record tells the truth about the run. */
  lemma {:induction false} EveryRecordIsTold(fault: Fault, es: seq<Event>, i: nat)
    requires i < |Run(fault, es).requests|
    ensures IsTold(fault, es, Run(fault, es).requests[i])
    decreases |es|
  {
    hide IsTold, Step, Registry, LastWipe;
    if es != [] {
      var before, e := es[..|es| - 1], es[|es| - 1];
      var s := Run(fault, before);
      RunKeepsInv(fault, before);
      RunKeepsFault(fault, before);
      forall j | 0 <= j < |s.requests| ensures IsTold(fault, before, s.requests[j]) {
        EveryRecordIsTold(fault, before, j);
      }
      EveryRecordGrows(fault, before, e, s, i);
      assert before + [e] == es;
    }
  }

  // ----- the observed receipt as a fact about the run

  lemma {:induction false} SequenceGrows(fault: Fault, es: seq<Event>, i: nat)
    requires i <= |es|
    ensures Run(fault, es[..i]).sequence <= Run(fault, es).sequence
    decreases |es|
  {
    hide Step, LastWipe;
    if i < |es| {
      var before := es[..|es| - 1];
      assert before[..i] == es[..i];
      SequenceGrows(fault, before, i);
      RunKeepsInv(fault, before);
      StepUpdatesFacts(Run(fault, before), es[|es| - 1]);
    } else {
      assert es[..i] == es;
    }
  }

  lemma SequenceAlong(fault: Fault, es: seq<Event>, i: nat, j: nat)
    requires i <= j <= |es|
    ensures Run(fault, es[..i]).sequence <= Run(fault, es[..j]).sequence
  {
    hide Run;
    assert es[..j][..i] == es[..i];
    SequenceGrows(fault, es[..j], i);
  }

  /** Event `b` of the run registered the request `key`. */
  ghost predicate Registers(fault: Fault, es: seq<Event>, b: nat, key: RequestKey) {
    b < |es| && es[b].Begin? && es[b].key == key && Accepts(Run(fault, es[..b]), key, es[b].url)
  }

  /** Event `b` of the run sent the fault. */
  ghost predicate InjectedBy(fault: Fault, es: seq<Event>, b: nat) {
    && b < |es| && es[b].Begin? && Registers(fault, es, b, es[b].key)
    && Injects(Run(fault, es[..b]), Strings.Trim(es[b].url.threadSegment.value))
  }

  ghost predicate AnsweredOk(es: seq<Event>, b: nat, key: RequestKey, p: nat) {
    LastResponse(es, b, key, p) && es[p].status == 200
  }

  /** The request begun by event `b2` picked the stream up after that of event `b` was cut off by event `x`. */
  ghost predicate ReconnectedAfter(fault: Fault, es: seq<Event>, b: nat, x: nat, b2: nat) {
    && x < b2 < |es| && b < |es| && es[b].Begin? && es[b].url.threadSegment.Some?
    && es[b2].Begin? && Registers(fault, es, b2, es[b2].key)
    && es[b].key != es[b2].key
    && Strings.Trim(es[b2].url.threadSegment.value) == Strings.Trim(es[b].url.threadSegment.value)
    && StrictlyAdvances(SemanticStreamOffset(es[b].url.lastStreamOffset),
                        SemanticStreamOffset(es[b2].url.lastStreamOffset))
    && !FailedSince(es, b2, es[b2].key)
    && exists p: nat :: AnsweredOk(es, b2, es[b2].key, p)
  }

  /** The request of event `b` was cut off on purpose by event `x` and some later request reconnected. */
  ghost predicate CutOffAndRecovered(fault: Fault, es: seq<Event>, b: nat, x: nat)
    requires b < |es| && es[b].Begin?
  {
    && LastFailure(es, b, es[b].key, x) && es[x].errorText == "net::ERR_ABORTED"
    && exists b2: nat :: ReconnectedAfter(fault, es, b, x, b2)
  }

  /** Event `b` sent the fault, Core answered it with the exact receipt, and the stream ended well. */
  ghost predicate FaultConsumed(fault: Fault, es: seq<Event>, b: nat) {
    && InjectedBy(fault, es, b)
    && (exists p: nat :: AnsweredOk(es, b, es[b].key, p) && es[p].receipt == Some(fault.Name()))
    && (if FailedSince(es, b, es[b].key)
        then && fault == ArtifactGapClose
             && !FinishedSince(es, b, es[b].key)
             && exists x: nat :: CutOffAndRecovered(fault, es, b, x)
        else FinishedSince(es, b, es[b].key))
  }

  // ----- from records to the run

  lemma RecoveryReconnected(fault: Fault, es: seq<Event>, b: nat, f: Record, x: nat, b2: nat, r: Record)
    requires Told(fault, es, b, f) && ShowsFailure(fault, es, b, f, x) && Told(fault, es, b2, r)
    requires RecoversFrom(Run(fault, es).targetThreadId, f, r)
    requires f.request.faultInjected && Some(f.request.threadId) == Run(fault, es).targetThreadId
    requires f.request.key != r.request.key
    ensures ReconnectedAfter(fault, es, b, x, b2)
  {
    hide Run, IsRegistered, Strings.Trim, Injects, SemanticStreamOffset, StrictlyAdvances, RecoveryAtBegin;
    var p: nat :| ShowsResponse(fault, es, b2, r, p);
    assert AnsweredOk(es, b2, es[b2].key, p);
    if b2 <= x {
      SequenceAlong(fault, es, b2, x);
    }
    assert x != b2;
  }

  lemma ConsumedRecordMeansConsumed(fault: Fault, es: seq<Event>, b: nat, f: nat)
    requires f < |Run(fault, es).requests|
    requires Consumed(Run(fault, es), Run(fault, es).requests[f])
    requires Told(fault, es, b, Run(fault, es).requests[f])
    ensures FaultConsumed(fault, es, b)
  {
    hide Run, Accepts, Strings.Trim, SemanticStreamOffset, StrictlyAdvances, RecoveryAtBegin, RecoversFrom, FailedSince, FinishedSince, LastWipe, Links, Records, LinkedExactly;
    RunKeepsInv(fault, es);
    RunKeepsFault(fault, es);
    var s := Run(fault, es);
    var fault' := s.requests[f];
    var p: nat :| ShowsResponse(fault, es, b, fault', p);
    assert AnsweredOk(es, b, es[b].key, p);
    assert OnRecord(s.sequence, s.targetThreadId, fault'.request);
    if fault'.failed {
      var x: nat :| ShowsFailure(fault, es, b, fault', x);
      var r :| 0 <= r < |s.requests| && RecoversFrom(s.targetThreadId, fault', s.requests[r]);
      EveryRecordIsTold(fault, es, r);
      var b2: nat :| Told(fault, es, b2, s.requests[r]);
      RecoveryIsAnother(s, f, r);
      RecoveryReconnected(fault, es, b, fault', x, b2, s.requests[r]);
      assert CutOffAndRecovered(fault, es, b, x);
    }
  }

  lemma RecoveryIsAnother(s: Probe, f: nat, r: nat)
    requires Registry(s) && f < |s.requests| && r < |s.requests|
    requires s.requests[f].request.faultInjected && RecoversFrom(s.targetThreadId, s.requests[f], s.requests[r])
    ensures s.requests[f].request.key != s.requests[r].request.key
  {
    KeyFindsItsRecord(s, f);
    KeyFindsItsRecord(s, r);
  }

  // ----- from the run back to records

  lemma StepKeepsRegistered(s: Probe, e: Event, key: RequestKey)
    requires Registry(s) && IsRegistered(s, key)
    ensures IsRegistered(Step(s, e), key)
  {
    hide Step, Registry;
    StepUpdatesFacts(s, e);
    var n := First(s.requests, WithKey(key));
    assert Facts(Step(s, e).requests[n]).request == s.requests[n].request;
    assert WithKey(key).Holds(Step(s, e).requests[n]);
  }

  lemma {:induction false} StaysRegistered(fault: Fault, es: seq<Event>, i: nat, key: RequestKey)
    requires i <= |es| && IsRegistered(Run(fault, es[..i]), key)
    ensures IsRegistered(Run(fault, es), key)
    decreases |es|
  {
    hide Step, LastWipe, IsRegistered;
    if i < |es| {
      var before := es[..|es| - 1];
      assert before[..i] == es[..i];
      StaysRegistered(fault, before, i, key);
      RunKeepsInv(fault, before);
      StepKeepsRegistered(Run(fault, before), es[|es| - 1], key);
    } else {
      assert es[..i] == es;
    }
  }

  lemma BeginRegisters(s: Probe, key: RequestKey, url: AgentUrl)
    requires Accepts(s, key, url)
    ensures IsRegistered(Step(s, Begin(key, url)), key)
  {
    hide RecoveryAtBegin, Injects, SemanticStreamOffset, Strings.Trim;
    var s' := BeginRequest(s, key, url).0;
    assert WithKey(key).Holds(s'.requests[|s.requests|]);
  }

  lemma RegisteredFromThen(fault: Fault, es: seq<Event>, b: nat, key: RequestKey, j: nat)
    requires Registers(fault, es, b, key) && b < j <= |es|
    ensures IsRegistered(Run(fault, es[..j]), key)
  {
    hide Step, IsRegistered, Accepts;
    var upTo := es[..b + 1];
    assert upTo[..|upTo| - 1] == es[..b] && upTo[|upTo| - 1] == es[b];
    BeginRegisters(Run(fault, es[..b]), key, es[b].url);
    assert es[..j][..b + 1] == upTo;
    StaysRegistered(fault, es[..j], b + 1, key);
  }

  lemma RegistrationIsUnique(fault: Fault, es: seq<Event>, b: nat, b': nat, key: RequestKey)
    requires Registers(fault, es, b, key) && Registers(fault, es, b', key)
    ensures b == b'
  {
    hide Run, IsRegistered;
    if b < b' {
      RegisteredFromThen(fault, es, b, key, b');
    } else if b' < b {
      RegisteredFromThen(fault, es, b', key, b);
    }
  }

  lemma RecordOf(fault: Fault, es: seq<Event>, b: nat, key: RequestKey) returns (i: nat)
    requires Registers(fault, es, b, key)
    ensures i < |Run(fault, es).requests| && Run(fault, es).requests[i].request.key == key
    ensures Told(fault, es, b, Run(fault, es).requests[i])
  {
    hide Run, Accepts, NewRecord;
    assert es[..|es|] == es;
    RegisteredFromThen(fault, es, b, key, |es|);
    i := First(Run(fault, es).requests, WithKey(key));
    EveryRecordIsTold(fault, es, i);
    var b': nat :| Told(fault, es, b', Run(fault, es).requests[i]);
    RegistrationIsUnique(fault, es, b, b', key);
  }

  lemma FailureAdvances(s: Probe, key: RequestKey, errorText: string)
    requires IsRegistered(s, key)
    ensures Step(s, Failure(key, errorText)).sequence >= s.sequence + 1
  {
    hide Touch;
    var n := First(s.requests, WithKey(key));
    TouchKeepsFacts(s.(sequence := s.sequence + 1), n, AfterFailure(s, s.requests[n], errorText));
  }

  lemma BegunAfterFailure(fault: Fault, es: seq<Event>, b: nat, x: nat, b2: nat)
    requires b < x < b2 < |es| && es[b].Begin? && Registers(fault, es, b, es[b].key)
    requires es[x].Failure? && es[x].key == es[b].key
    ensures Run(fault, es[..x]).sequence + 1 <= Run(fault, es[..b2]).sequence
  {
    hide Step, IsRegistered, Accepts;
    var upTo := es[..x + 1];
    assert upTo[..|upTo| - 1] == es[..x] && upTo[|upTo| - 1] == es[x];
    RegisteredFromThen(fault, es, b, es[b].key, x);
    FailureAdvances(Run(fault, es[..x]), es[x].key, es[x].errorText);
    SequenceAlong(fault, es, x + 1, b2);
  }

  lemma ShownResponse(fault: Fault, es: seq<Event>, b: nat, r: Record, p: nat)
    requires Told(fault, es, b, r) && LastResponse(es, b, r.request.key, p)
    ensures ShowsResponse(fault, es, b, r, p) && !r.responseHeadersPending
  {
    hide RegisteredBy, FailedSince, FinishedSince, ToldFailure;
    var p': nat :| ShowsResponse(fault, es, b, r, p');
    assert p < p' ==> IsResponseEvent(es[p'], r.request.key);
    assert p' < p ==> IsResponseEvent(es[p], r.request.key);
  }

  lemma ReconnectionRecovers(fault: Fault, es: seq<Event>, b: nat, f: Record, x: nat, b2: nat, r: Record)
    requires Told(fault, es, b, f) && Told(fault, es, b2, r)
    requires LastFailure(es, b, f.request.key, x) && ShowsFailure(fault, es, b, f, x)
    requires ReconnectedAfter(fault, es, b, x, b2) && r.request.key == es[b2].key
    requires Some(f.request.threadId) == Run(fault, es).targetThreadId && !r.request.faultInjected
    ensures RecoversFrom(Run(fault, es).targetThreadId, f, r)
  {
    hide Run, IsRegistered, Strings.Trim, Injects, SemanticStreamOffset, StrictlyAdvances, RecoveryAtBegin;
    var p: nat :| AnsweredOk(es, b2, es[b2].key, p);
    ShownResponse(fault, es, b2, r, p);
    BegunAfterFailure(fault, es, b, x, b2);
  }

  lemma ShownFailure(fault: Fault, es: seq<Event>, b: nat, r: Record, x: nat)
    requires Told(fault, es, b, r) && LastFailure(es, b, r.request.key, x)
    ensures r.failed && ShowsFailure(fault, es, b, r, x)
  {
    hide Run, RegisteredBy, FinishedSince, ToldResponse;
    assert FailedSince(es, b, r.request.key);
    var x': nat :| ShowsFailure(fault, es, b, r, x');
  }

  lemma CutOffHasRecovery(fault: Fault, es: seq<Event>, b: nat, f: nat, x: nat)
    requires f < |Run(fault, es).requests| && Told(fault, es, b, Run(fault, es).requests[f])
    requires Run(fault, es).requests[f].request.faultInjected
    requires b < |es| && es[b].Begin? && CutOffAndRecovered(fault, es, b, x)
    ensures SomeRecovery(Run(fault, es), Run(fault, es).requests[f])
    ensures Run(fault, es).requests[f].failureMatchesIntentionalClose
  {
    hide Run, Accepts, NewRecord, LastWipe, Links, Records, LinkedExactly, ToldResponse, FailedSince, FinishedSince;
    RunKeepsInv(fault, es);
    var s := Run(fault, es);
    var b2: nat :| ReconnectedAfter(fault, es, b, x, b2);
    var r := RecordOf(fault, es, b2, es[b2].key);
    ShownFailure(fault, es, b, s.requests[f], x);
    assert OnRecord(s.sequence, s.targetThreadId, s.requests[f].request);
    if s.requests[r].request.faultInjected {
      InjectedAreTheSame(s, f, r);
    }
    ReconnectionRecovers(fault, es, b, s.requests[f], x, b2, s.requests[r]);
  }

  lemma ConsumedMeansConsumedRecord(fault: Fault, es: seq<Event>, b: nat)
    requires FaultConsumed(fault, es, b)
    ensures SomeConsumed(Run(fault, es))
  {
    hide Run, Accepts, FailedSince, FinishedSince, RecoveryAtBegin, SemanticStreamOffset, Strings.Trim, ToldResponse, ToldFailure, LastFailure;
    RunKeepsFault(fault, es);
    var s := Run(fault, es);
    var f := RecordOf(fault, es, b, es[b].key);
    var p: nat :| AnsweredOk(es, b, es[b].key, p) && es[p].receipt == Some(fault.Name());
    ShownResponse(fault, es, b, s.requests[f], p);
    if s.requests[f].failed {
      var x: nat :| CutOffAndRecovered(fault, es, b, x);
      CutOffHasRecovery(fault, es, b, f, x);
    }
    assert Consumed(s, s.requests[f]);
  }

  /**
   * After every run, the probe reports a receipt exactly when the run contains an injected
   * request that Core answered with 200 and the exact receipt, and that either finished without
   * ever failing or (gap-close only) was cut off with ERR_ABORTED and followed by a request on the
   * same Thread, at a strictly larger offset, answered with 200 and never failed.
   */
  lemma ReceiptObservedIffFaultConsumed(fault: Fault, es: seq<Event>)
    ensures ReceiptObserved(Run(fault, es)) <==> exists b: nat :: FaultConsumed(fault, es, b)
  {
    hide Run, ReceiptObserved, FaultConsumed, Consumed, Told;
    ReceiptObservedIffConsumed(fault, es);
    var s := Run(fault, es);
    if SomeConsumed(s) {
      var f :| 0 <= f < |s.requests| && Consumed(s, s.requests[f]);
      EveryRecordIsTold(fault, es, f);
      var b: nat :| Told(fault, es, b, s.requests[f]);
      ConsumedRecordMeansConsumed(fault, es, b, f);
    }
    if b: nat :| FaultConsumed(fault, es, b) {
      ConsumedMeansConsumedRecord(fault, es, b);
    }
  }
}
