/**
 * Which request is the recovery request, told by the events of a run alone, and exactly when the
 * first target request after a fault's success is the one.
 */
module ProbeRecovery {
  import opened Options
  import opened FaultReceiptProbe
  import opened ProbeInvariant
  import opened ProbeRuns
  import opened ProbeTheorems
  import opened ProbeTraces
  import opened ProbeInjection
  import opened ProbeEvents
  import Strings

  // ----- the success of a fault that ended normally, event by event

  lemma ReconcileKeepsTerminal(s: Probe, i: nat)
    requires i < |s.requests| && !s.requests[i].failed
    ensures Reconcile(s).requests[i].successfulTerminalSequence == s.requests[i].successfulTerminalSequence
  {
    hide Count, Earliest, RecoversFrom;
  }

  /** Where a changed record leaves the terminal sequences of records that have not failed. */
  lemma TouchedTerminals(s: Probe, j: nat, r: Record, i: nat)
    requires i < |s.requests| && j < |s.requests|
    ensures i != j && !s.requests[i].failed ==>
              && PutSynced(s, j, r).requests[i] == s.requests[i]
              && Touch(s, j, r).requests[i].successfulTerminalSequence == s.requests[i].successfulTerminalSequence
    ensures OrdinaryTerminal(r) ==>
              var terminal := if r.successfulTerminalSequence.Some? then r.successfulTerminalSequence else Some(s.sequence + 1);
              && PutSynced(s, j, r).requests[j].successfulTerminalSequence == terminal
              && Touch(s, j, r).requests[j].successfulTerminalSequence == terminal
  {
    hide Reconcile, AbortedFault;
    var put := PutSynced(s, j, r);
    if OrdinaryTerminal(r) {
      ReconcileKeepsTerminal(put, j);
    }
    if i != j && !s.requests[i].failed {
      ReconcileKeepsTerminal(put, i);
    }
  }

  /** A success keeps its sequence number while it lasts; a new one gets a new number. */
  ghost predicate TerminalMoves(s: Probe, r: Record, r': Record) {
    OrdinaryTerminal(r') ==>
      if OrdinaryTerminal(r) then r'.successfulTerminalSequence == r.successfulTerminalSequence
      else r'.successfulTerminalSequence.Some? && r'.successfulTerminalSequence.value > s.sequence
  }

  lemma SameKeySameIndex(s: Probe, i: nat, key: RequestKey)
    requires Registry(s) && i < |s.requests|
    ensures s.requests[i].request.key == key <==> First(s.requests, WithKey(key)) == i
  {
    hide Registry;
    KeyFindsItsRecord(s, i);
  }

  lemma EventMovesTerminal(s: Probe, e: Event, i: nat)
    requires Registry(s) && Records(s) && i < |s.requests|
    ensures i < |Step(s, e).requests| && TerminalMoves(s, s.requests[i], Step(s, e).requests[i])
  {
    hide Touch, PutSynced, Registry, Records, First, OrdinaryTerminal, ReleaseIfTerminal;
    assert Dated(s.sequence, s.requests[i]) && Settled(s.requests[i]) by { RecordIsSound(s, i); }
    StepUpdatesFacts(s, e);
    SameFactsSameTerminal(s, e, i);
    if e.BindTarget? || e.Begin? {
      QuietStepKeepsRecord(s, e, i);
    } else {
      SameKeySameIndex(s, i, e.key);
      var n := First(s.requests, WithKey(e.key));
      if n < |s.requests| {
        AboutMovesTerminal(s, e, n, i);
      } else {
        UnknownStep(s, e);
      }
    }
  }

  lemma RecordIsSound(s: Probe, i: nat)
    requires Records(s) && i < |s.requests|
    ensures Dated(s.sequence, s.requests[i]) && Settled(s.requests[i])
  {
  }

  lemma UnknownStep(s: Probe, e: Event)
    requires !e.BindTarget? && !e.Begin? && First(s.requests, WithKey(e.key)) == |s.requests|
    ensures Step(s, e) == s
  {
    hide Touch, PutSynced, First, ReleaseIfTerminal;
  }

  lemma QuietStepKeepsRecord(s: Probe, e: Event, i: nat)
    requires (e.BindTarget? || e.Begin?) && i < |s.requests|
    ensures i < |Step(s, e).requests| && Step(s, e).requests[i] == s.requests[i]
  {
    hide NewRecord, Accepts;
  }

  lemma SameFactsSameTerminal(s: Probe, e: Event, i: nat)
    requires i < |s.requests| && UpdatesFacts(s, e, Step(s, e))
    ensures i < |Step(s, e).requests|
    ensures OrdinaryTerminal(Step(s, e).requests[i]) <==> OrdinaryTerminal(Updated(s, e, s.requests[i]))
  {
    hide Step, Updated;
    var r, r' := s.requests[i], Step(s, e).requests[i];
    assert Facts(r') == Facts(Updated(s, e, r));
    assert r'.request == Facts(r').request && r'.failed == Facts(r').failed;
  }

  lemma AboutMovesTerminal(s: Probe, e: Event, n: nat, i: nat)
    requires !e.BindTarget? && !e.Begin? && n == First(s.requests, WithKey(e.key)) && n < |s.requests| && i < |s.requests|
    requires s.requests[i].request.key == e.key <==> i == n
    requires i < |Step(s, e).requests|
    requires OrdinaryTerminal(Step(s, e).requests[i]) <==> OrdinaryTerminal(Updated(s, e, s.requests[i]))
    requires Dated(s.sequence, s.requests[i]) && Settled(s.requests[i])
    ensures TerminalMoves(s, s.requests[i], Step(s, e).requests[i])
  {
    hide Touch, PutSynced, First;
    var r := s.requests[n];
    match e
    case ResponseStarted(_, status) => TouchedTerminals(s, n, r.(responseHeadersPending := true, status := Some(status)), i);
    case Response(_, status, receipt) => TouchedTerminals(s, n, AfterResponse(s.fault, r, status, receipt), i);
    case Finished(_) => TouchedTerminals(s, n, r.(finished := true), i);
    case Failure(_, errorText) =>
      TouchedTerminals(s.(sequence := s.sequence + 1), n, AfterFailure(s, r, errorText), i);
  }

  // ----- how long a success has lasted

  ghost predicate StandsIn(s: Probe, key: RequestKey) {
    var i := First(s.requests, WithKey(key));
    i < |s.requests| && OrdinaryTerminal(s.requests[i])
  }

  ghost function TerminalIn(s: Probe, key: RequestKey): Option<nat> {
    var i := First(s.requests, WithKey(key));
    if i < |s.requests| then s.requests[i].successfulTerminalSequence else None
  }

  lemma IndexStays(s: Probe, e: Event, key: RequestKey)
    requires Registry(s) && Registry(Step(s, e)) && IsRegistered(s, key)
    ensures First(Step(s, e).requests, WithKey(key)) == First(s.requests, WithKey(key))
  {
    hide Step, Registry;
    StepUpdatesFacts(s, e);
    var i := First(s.requests, WithKey(key));
    assert Facts(Step(s, e).requests[i]).request == s.requests[i].request;
    KeyFindsItsRecord(Step(s, e), i);
  }

  lemma NewRecordDoesNotStand(s: Probe, e: Event, key: RequestKey)
    requires Registry(s) && !IsRegistered(s, key)
    ensures !StandsIn(Step(s, e), key)
  {
    hide Step, Registry;
    StepUpdatesFacts(s, e);
    var s' := Step(s, e);
    var i := First(s'.requests, WithKey(key));
    assert forall j :: 0 <= j < |s.requests| ==> Facts(s'.requests[j]).request == s.requests[j].request;
    assert forall j :: 0 <= j < |s.requests| ==> !WithKey(key).Holds(s.requests[j]);
    if |s.requests| <= i < |s'.requests| {
      NewRecordIsBegun(s, e, i);
    }
  }

  lemma StepMovesStanding(s: Probe, e: Event, cleared: nat, key: RequestKey)
    requires Inv(s, cleared) && Registry(Step(s, e)) && StandsIn(Step(s, e), key)
    ensures TerminalIn(Step(s, e), key).Some?
    ensures if StandsIn(s, key) then TerminalIn(Step(s, e), key) == TerminalIn(s, key)
            else TerminalIn(Step(s, e), key).value > s.sequence
  {
    hide Step, Registry, Records, OrdinaryTerminal, Links, LinkedExactly;
    if IsRegistered(s, key) {
      IndexStays(s, e, key);
      var i := First(s.requests, WithKey(key));
      EventMovesTerminal(s, e, i);
      assert OrdinaryTerminal(s.requests[i]) ==> s.requests[i].successfulTerminalSequence.Some? by { SettledRecord(s, i); }
    } else {
      NewRecordDoesNotStand(s, e, key);
    }
  }

  lemma SettledRecord(s: Probe, i: nat)
    requires Records(s) && i < |s.requests|
    ensures OrdinaryTerminal(s.requests[i]) ==>
              && s.requests[i].successfulTerminalSequence.Some?
              && s.requests[i].successfulTerminalSequence.value <= s.sequence
  {
  }

  lemma StandingIsDated(s: Probe, key: RequestKey)
    requires Records(s) && StandsIn(s, key)
    ensures TerminalIn(s, key).Some? && TerminalIn(s, key).value <= s.sequence
  {
    hide Records, OrdinaryTerminal;
    SettledRecord(s, First(s.requests, WithKey(key)));
  }

  /** A success dates from before event `b` exactly when it has stood ever since. */
  lemma {:induction false} StandingSince(fault: Fault, es: seq<Event>, key: RequestKey, b: nat, n: nat)
    requires b <= n <= |es| && StandsIn(Run(fault, es[..n]), key)
    ensures TerminalIn(Run(fault, es[..n]), key).Some?
    ensures TerminalIn(Run(fault, es[..n]), key).value <= Run(fault, es[..b]).sequence
       <==> forall m :: b <= m <= n ==> StandsIn(Run(fault, es[..m]), key)
    decreases n
  {
    hide Run, Step, StandsIn, TerminalIn, LastWipe, Registry, Records, Links, LinkedExactly;
    RunKeepsInv(fault, es[..n]);
    StandingIsDated(Run(fault, es[..n]), key);
    if b < n {
      var s := Run(fault, es[..n - 1]);
      RunKeepsInv(fault, es[..n - 1]);
      RunOneMore(fault, es, n - 1);
      StepMovesStanding(s, es[n - 1], LastWipe(fault, es[..n - 1]), key);
      if StandsIn(s, key) {
        StandingSince(fault, es, key, b, n - 1);
      } else {
        SequenceAlong(fault, es, b, n - 1);
      }
    }
  }

  // ----- the same, told by events

  /** The request of event `b0` has been answered exactly, has finished and has not failed. */
  ghost predicate Stands(fault: Fault, es: seq<Event>, b0: nat) {
    && b0 < |es| && es[b0].Begin? && AnsweredExactly(fault, es, b0)
    && FinishedSince(es, b0, es[b0].key) && !FailedSince(es, b0, es[b0].key)
  }

  ghost predicate StandsFrom(fault: Fault, es: seq<Event>, b0: nat, b: nat) {
    forall n :: b <= n <= |es| ==> Stands(fault, es[..n], b0)
  }

  lemma AnsweredRecord(fault: Fault, es: seq<Event>, b: nat, r: Record)
    requires b < |es| && es[b].Begin? && es[b].key == r.request.key && Told(fault, es, b, r)
    ensures AnsweredExactly(fault, es, b) <==> !r.responseHeadersPending && r.status == Some(200) && r.receiptMatchesFault
  {
    hide RegisteredBy, FailedSince, FinishedSince, ToldFailure;
    if AnsweredExactly(fault, es, b) {
      var p: nat :| AnsweredOk(es, b, es[b].key, p) && es[p].receipt == Some(fault.Name());
      ShownResponse(fault, es, b, r, p);
    }
    if !r.responseHeadersPending && r.status == Some(200) && r.receiptMatchesFault {
      var p: nat :| ShowsResponse(fault, es, b, r, p);
      assert AnsweredOk(es, b, es[b].key, p);
    }
  }

  lemma InjectedRecord(fault: Fault, es: seq<Event>, b: nat, r: Record)
    requires Told(fault, es, b, r)
    ensures r.request.faultInjected <==> IsFirstOnTarget(es, b)
  {
    hide Run, Accepts, Injects, Strings.Trim, RecoveryAtBegin, SemanticStreamOffset, FailedSince, FinishedSince, ToldResponse, ToldFailure, IsFirstOnTarget;
    InjectedIffFirstOnTarget(fault, es, b);
  }

  lemma StandingRecord(fault: Fault, es: seq<Event>, b: nat, r: Record)
    requires Told(fault, es, b, r) && IsFirstOnTarget(es, b)
    ensures OrdinaryTerminal(r) <==> Stands(fault, es, b)
  {
    hide Run, RegisteredBy, ToldResponse, ToldFailure, FailedSince, FinishedSince, AnsweredExactly, IsFirstOnTarget;
    FirstOnTargetIsFirstOfKey(es, b);
    SequenceOfRecord(fault, es, b, r);
    InjectedRecord(fault, es, b, r);
    AnsweredRecord(fault, es, b, r);
  }

  lemma FirstOfKeyInPrefix(es: seq<Event>, b: nat, n: nat)
    requires b < n <= |es|
    ensures IsFirstOfKey(es[..n], b) <==> IsFirstOfKey(es, b)
  {
    hide IsProper;
  }

  lemma OnTargetInPrefix(es: seq<Event>, b: nat, n: nat)
    requires b < n <= |es|
    ensures OnTarget(es[..n], b) <==> OnTarget(es, b)
  {
    hide Targets, IsFirstOfKey;
    FirstOfKeyInPrefix(es, b, n);
    FirstOfKeyIsInside(es, b);
    FirstOfKeyIsInside(es[..n], b);
    assert es[..n][..b] == es[..b];
  }

  lemma FirstOfKeyIsInside(es: seq<Event>, b: nat)
    ensures IsFirstOfKey(es, b) ==> b < |es| && IsProper(es[b])
  {
  }

  lemma FirstOnTargetInPrefix(es: seq<Event>, b: nat, n: nat)
    requires IsFirstOnTarget(es, b) && b < n <= |es|
    ensures IsFirstOnTarget(es[..n], b)
  {
    hide OnTarget;
    forall j: nat | j <= b ensures OnTarget(es[..n], j) <==> OnTarget(es, j) {
      OnTargetInPrefix(es, j, n);
    }
  }

  lemma FirstWithKey(fault: Fault, es: seq<Event>, b: nat, r: nat)
    requires r < |Run(fault, es).requests| && Told(fault, es, b, Run(fault, es).requests[r])
    ensures b < |es| && es[b].Begin? && es[b].key == Run(fault, es).requests[r].request.key
    ensures First(Run(fault, es).requests, WithKey(es[b].key)) == r
  {
    hide Run, Told, LastWipe, First;
    SequenceOfRecord(fault, es, b, Run(fault, es).requests[r]);
    FirstOfKeyIsInside(es, b);
    RunKeepsInv(fault, es);
    KeyFindsItsRecord(Run(fault, es), r);
  }

  lemma StandsAt(fault: Fault, es: seq<Event>, b0: nat, n: nat)
    requires IsFirstOnTarget(es, b0) && n <= |es|
    ensures b0 < |es| && es[b0].Begin?
    ensures StandsIn(Run(fault, es[..n]), es[b0].key) <==> Stands(fault, es[..n], b0)
  {
    hide Run, Told, IsFirstOnTarget, OrdinaryTerminal, First, AnsweredExactly, FinishedSince, FailedSince, IsProper, StandsIn;
    FirstOnTargetIsFirstOfKey(es, b0);
    if b0 < n {
      FirstOnTargetInPrefix(es, b0, n);
      StandsNowIff(fault, es[..n], b0);
      assert es[..n][b0] == es[b0];
    } else {
      NotYetStanding(fault, es, b0, n);
    }
  }

  lemma StandsNowIff(fault: Fault, es: seq<Event>, b0: nat)
    requires IsFirstOnTarget(es, b0)
    ensures b0 < |es| && es[b0].Begin?
    ensures StandsIn(Run(fault, es), es[b0].key) <==> Stands(fault, es, b0)
  {
    hide Run, Told, IsFirstOnTarget, OrdinaryTerminal, First, Stands, IsFirstOfKey;
    FirstOnTargetIsFirstOfKey(es, b0);
    var r := RecordOfEvent(fault, es, b0);
    FirstWithKey(fault, es, b0, r);
    StandingRecord(fault, es, b0, Run(fault, es).requests[r]);
  }

  lemma NotYetStanding(fault: Fault, es: seq<Event>, b0: nat, n: nat)
    requires IsFirstOfKey(es, b0) && n <= b0 < |es|
    ensures !StandsIn(Run(fault, es[..n]), es[b0].key)
  {
    hide Run, OrdinaryTerminal, First, Strings.Trim;
    RegisteredIff(fault, es[..n], es[b0].key);
    assert forall j :: 0 <= j < n ==> es[..n][j] == es[j];
  }

  // ----- reconcile passes, told by events

  /** In gap-close, any response or failure of a registered request makes the probe reconcile. */
  ghost predicate Disturbs(fault: Fault, es: seq<Event>, k: nat) {
    && fault == ArtifactGapClose && k < |es|
    && (es[k].ResponseStarted? || es[k].Response? || es[k].Failure?)
    && exists j :: 0 <= j < k && IsProper(es[j]) && es[j].key == es[k].key
  }

  ghost predicate Undisturbed(fault: Fault, es: seq<Event>, b: nat) {
    forall k: nat :: b < k < |es| ==> !Disturbs(fault, es, k)
  }

  lemma DisturbsIff(fault: Fault, es: seq<Event>, k: nat)
    requires k < |es|
    ensures Disturbs(fault, es, k) <==> Reconciles(Run(fault, es[..k]), es[k])
  {
    hide Run, IsProper, IsRegistered;
    RunKeepsFault(fault, es[..k]);
    if !es[k].BindTarget? {
      RegisteredIff(fault, es[..k], es[k].key);
      assert forall j :: 0 <= j < k ==> es[..k][j] == es[j];
    }
  }

  /** The last wipe dates from before event `b` exactly when nothing has disturbed since. */
  lemma {:induction false} WipedBefore(fault: Fault, es: seq<Event>, b: nat, n: nat)
    requires IsFirstOfKey(es, b) && b < n <= |es|
    ensures LastWipe(fault, es[..n]) <= Run(fault, es[..b]).sequence
       <==> forall k: nat :: b < k < n ==> !Disturbs(fault, es, k)
  {
    hide Run, Step, Disturbs, IsFirstOfKey, Registry, Records, Links, LinkedExactly, Reconciles;
    var m := n - 1;
    assert es[..n][..m] == es[..m] && es[..n][m] == es[m];
    RunOneMore(fault, es, m);
    DisturbsIff(fault, es, m);
    if m == b {
      FirstOfKeyIsInside(es, b);
      BeginDoesNotReconcile(Run(fault, es[..b]), es[b]);
      RunKeepsInv(fault, es[..b]);
    } else {
      WipedBefore(fault, es, b, m);
      RegisteringAdvances(fault, es, b, n);
    }
  }

  lemma BeginDoesNotReconcile(s: Probe, e: Event)
    requires IsProper(e)
    ensures !Reconciles(s, e)
  {
  }

  // ----- the recovery request

  /** A request begun on the target while the fault of `b0` stood, with nothing in the way since. */
  ghost predicate IsCandidate(fault: Fault, es: seq<Event>, b0: nat, b: nat) {
    OnTarget(es, b) && StandsFrom(fault, es, b0, b) && Undisturbed(fault, es, b)
  }

  ghost predicate ReconnectsFirst(es: seq<Event>, b0: nat, x: nat, b: nat) {
    Reconnects(es, b0, x, b) && forall b2: nat :: b2 < b ==> !Reconnects(es, b0, x, b2)
  }

  ghost predicate IsCutOffAndCaughtBy(es: seq<Event>, b0: nat, x: nat, b: nat)
    requires b0 < |es| && es[b0].Begin?
  {
    IsCutOff(es, b0, x) && ReconnectsFirst(es, b0, x, b)
  }

  /**
   * Event `b` began the recovery request of the fault sent by event `b0`: the first reconnection
   * after a cut-off or, if the fault never failed, the first candidate.
   */
  ghost predicate Recovers(fault: Fault, es: seq<Event>, b0: nat, b: nat) {
    && IsFirstOnTarget(es, b0) && AnsweredExactly(fault, es, b0)
    && if FailedSince(es, b0, es[b0].key)
       then fault == ArtifactGapClose && exists x: nat :: IsCutOffAndCaughtBy(es, b0, x, b)
       else IsCandidate(fault, es, b0, b) && forall b2: nat :: b2 < b ==> !IsCandidate(fault, es, b0, b2)
  }

  lemma ThreadOfRecord(fault: Fault, es: seq<Event>, b: nat, r: Record)
    requires Told(fault, es, b, r)
    ensures b < |es| && es[b].Begin? && es[b].url.threadSegment.Some?
    ensures r.request.threadId == Strings.Trim(es[b].url.threadSegment.value)
  {
    hide Run, Injects, Strings.Trim, RecoveryAtBegin, SemanticStreamOffset, FailedSince, FinishedSince, ToldResponse, ToldFailure;
  }

  lemma BoundInPrefix(es: seq<Event>, j: nat, n: nat)
    requires j < n <= |es|
    ensures BoundBy(es[..n], j) <==> BoundBy(es, j)
  {
    hide Binds;
  }

  lemma BoundOnce(es: seq<Event>, i: nat, j: nat)
    requires BoundBy(es, i) && BoundBy(es, j)
    ensures i == j
  {
    hide Binds;
  }

  /** Once a Thread is bound, the target no longer depends on what follows. */
  lemma TargetsFixed(es: seq<Event>, n: nat, bound: string, t: string)
    requires n <= |es| && Targets(es[..n], bound)
    ensures Targets(es[..n], t) <==> Targets(es, t)
  {
    hide IsThreadId, Strings.Trim;
    var j: nat :| BoundBy(es[..n], j) && Strings.Trim(es[..n][j].threadId) == bound;
    assert j < n by { BoundIsInside(es[..n], j); }
    BoundInPrefix(es, j, n);
    forall i: nat | BoundBy(es, i) ensures i == j {
      BoundOnce(es, i, j);
    }
    forall i: nat | BoundBy(es[..n], i) ensures i == j {
      BoundOnce(es[..n], i, j);
    }
    assert es[..n][j] == es[j];
  }

  lemma BoundIsInside(es: seq<Event>, j: nat)
    requires BoundBy(es, j)
    ensures j < |es| && es[j].BindTarget?
  {
  }

  lemma TargetOfRecord(fault: Fault, es: seq<Event>, b0: nat, b: nat, r: Record)
    requires IsFirstOnTarget(es, b0) && b0 < b && Told(fault, es, b, r)
    ensures Some(r.request.threadId) == Run(fault, es).targetThreadId <==> OnTarget(es, b)
  {
    hide Run, Told, Targets, Strings.Trim, IsFirstOfKey;
    SequenceOfRecord(fault, es, b, r);
    ThreadOfRecord(fault, es, b, r);
    FirstOfKeyIsInside(es, b0);
    TargetIsTheFirstBound(fault, es);
    var bound := Strings.Trim(es[b0].url.threadSegment.value);
    assert es[..b][..b0] == es[..b0];
    TargetsFixed(es[..b], b0, bound, bound);
    TargetsFixed(es, b, bound, r.request.threadId);
  }

  lemma CandidateRecord(fault: Fault, es: seq<Event>, b0: nat, terminal: nat, b: nat, r: Record)
    requires IsFirstOnTarget(es, b0) && b0 < |es| && es[b0].Begin? && StandsIn(Run(fault, es), es[b0].key)
    requires TerminalIn(Run(fault, es), es[b0].key) == Some(terminal)
    requires Told(fault, es, b, r)
    ensures BegunAfter(Run(fault, es).targetThreadId, Max(LastWipe(fault, es), terminal), r) <==> IsCandidate(fault, es, b0, b)
  {
    hide Run, Told, IsFirstOnTarget, StandsIn, TerminalIn, OnTarget, LastWipe, Stands, Disturbs, IsFirstOfKey;
    SequenceOfRecord(fault, es, b, r);
    assert es[..|es|] == es;
    WipedBefore(fault, es, b, |es|);
    StandingSince(fault, es, es[b0].key, b, |es|);
    forall n | b <= n <= |es| ensures StandsIn(Run(fault, es[..n]), es[b0].key) <==> Stands(fault, es[..n], b0) {
      StandsAt(fault, es, b0, n);
    }
    if terminal <= Run(fault, es[..b]).sequence {
      assert Stands(fault, es[..b], b0);
      assert b0 < b by { StandsInside(fault, es[..b], b0); }
      TargetOfRecord(fault, es, b0, b, r);
    }
  }

  lemma StandsInside(fault: Fault, es: seq<Event>, b0: nat)
    requires Stands(fault, es, b0)
    ensures b0 < |es|
  {
  }

  lemma CandidatesAreAsked(fault: Fault, es: seq<Event>, b0: nat, terminal: nat)
    requires IsFirstOnTarget(es, b0) && b0 < |es| && es[b0].Begin? && StandsIn(Run(fault, es), es[b0].key)
    requires TerminalIn(Run(fault, es), es[b0].key) == Some(terminal)
    ensures AsksFor(fault, es, TargetAfter(Run(fault, es).targetThreadId, Max(LastWipe(fault, es), terminal)),
                    set b | 0 <= b < |es| && IsCandidate(fault, es, b0, b))
  {
    hide Run, Told, IsFirstOnTarget, StandsIn, TerminalIn, LastWipe, IsCandidate, IsFirstOfKey, BegunAfter;
    var told := set b | 0 <= b < |es| && IsCandidate(fault, es, b0, b);
    var q := TargetAfter(Run(fault, es).targetThreadId, Max(LastWipe(fault, es), terminal));
    forall b: nat | b in told ensures IsFirstOfKey(es, b) {
      CandidateIsFirstOfKey(fault, es, b0, b);
    }
    forall b: nat, r: Record | r in Run(fault, es).requests && Told(fault, es, b, r) ensures q.Holds(r) <==> b in told {
      SequenceOfRecord(fault, es, b, r);
      CandidateRecord(fault, es, b0, terminal, b, r);
    }
  }

  lemma CandidateIsFirstOfKey(fault: Fault, es: seq<Event>, b0: nat, b: nat)
    requires IsCandidate(fault, es, b0, b)
    ensures IsFirstOfKey(es, b) && b < |es|
  {
  }

  lemma ReconnectingRecord(fault: Fault, es: seq<Event>, b0: nat, f: Record, x: nat, b: nat, r: Record)
    requires IsFirstOnTarget(es, b0) && Told(fault, es, b0, f) && f in Run(fault, es).requests
    requires ShowsFailure(fault, es, b0, f, x)
    requires Told(fault, es, b, r) && r in Run(fault, es).requests
    ensures RecoversFrom(Run(fault, es).targetThreadId, f, r) <==> Reconnects(es, b0, x, b)
  {
    hide Run, Told, IsFirstOnTarget, RecoversFrom, Reconnects, ReconnectedAfter, LastWipe, Records, Links, LinkedExactly;
    var s := Run(fault, es);
    FirstOnTargetIsFirstOfKey(es, b0);
    SequenceOfRecord(fault, es, b0, f);
    SequenceOfRecord(fault, es, b, r);
    InjectedRecord(fault, es, b0, f);
    InjectedRecord(fault, es, b, r);
    ReconnectsIff(fault, es, b0, x, b);
    RunKeepsInv(fault, es);
    var i :| 0 <= i < |s.requests| && s.requests[i] == f;
    assert OnRecord(s.sequence, s.targetThreadId, f.request);
    if RecoversFrom(s.targetThreadId, f, r) {
      var j :| 0 <= j < |s.requests| && s.requests[j] == r;
      RecoveryIsAnother(s, i, j);
      RecoveryReconnected(fault, es, b0, f, x, b, r);
    }
    if Reconnects(es, b0, x, b) {
      ReconnectsToAnother(es, b0, x, b);
      ReconnectionRecovers(fault, es, b0, f, x, b, r);
    }
  }

  /** The fault is sent once, so whoever reconnects does not carry it. */
  lemma ReconnectsToAnother(es: seq<Event>, b0: nat, x: nat, b: nat)
    requires IsFirstOnTarget(es, b0) && Reconnects(es, b0, x, b)
    ensures !IsFirstOnTarget(es, b)
  {
    hide OnTarget, IsProper, Strings.Trim, Advances, FailedSince, AnsweredOk, IsFirstOfKey;
    FirstOnTargetIsFirstOfKey(es, b0);
    assert b != b0;
    if IsFirstOnTarget(es, b) {
      OnlyOneIsFirst(es, b0, b);
    }
  }

  lemma OnlyOneIsFirst(es: seq<Event>, b: nat, b': nat)
    requires IsFirstOnTarget(es, b) && IsFirstOnTarget(es, b')
    ensures b == b'
  {
    hide OnTarget;
  }

  lemma ReconnectionsAreAsked(fault: Fault, es: seq<Event>, b0: nat, f: Record, x: nat)
    requires IsFirstOnTarget(es, b0) && Told(fault, es, b0, f) && f in Run(fault, es).requests
    requires ShowsFailure(fault, es, b0, f, x)
    ensures AsksFor(fault, es, Recovering(Run(fault, es).targetThreadId, f), set b | 0 <= b < |es| && Reconnects(es, b0, x, b))
  {
    hide Run, Told, IsFirstOnTarget, RecoversFrom, Reconnects, IsFirstOfKey, ShowsFailure;
    var told := set b | 0 <= b < |es| && Reconnects(es, b0, x, b);
    forall b: nat | b in told ensures IsFirstOfKey(es, b) {
      ReconnectorIsFirstOfKey(es, b0, x, b);
    }
    forall b: nat, r: Record | r in Run(fault, es).requests && Told(fault, es, b, r)
      ensures Recovering(Run(fault, es).targetThreadId, f).Holds(r) <==> b in told
    {
      SequenceOfRecord(fault, es, b, r);
      ReconnectingRecord(fault, es, b0, f, x, b, r);
    }
  }

  lemma ReconnectorIsFirstOfKey(es: seq<Event>, b0: nat, x: nat, b: nat)
    requires Reconnects(es, b0, x, b)
    ensures IsFirstOfKey(es, b) && b < |es|
  {
  }

  /** What the record of a failed fault says about the run. */
  lemma CutOffRecord(fault: Fault, es: seq<Event>, b0: nat, f: Record) returns (x: nat)
    requires IsFirstOnTarget(es, b0) && Told(fault, es, b0, f) && f.failed
    ensures b0 < |es| && es[b0].Begin? && es[b0].key == f.request.key && ShowsFailure(fault, es, b0, f, x)
    ensures AbortedFault(f) <==> AnsweredExactly(fault, es, b0) && IsCutOff(es, b0, x)
    ensures forall x': nat :: IsCutOff(es, b0, x') ==> x' == x
  {
    hide Run, RegisteredBy, ToldResponse, FailedSince, FinishedSince, AnsweredExactly, IsFirstOnTarget;
    FirstOnTargetIsFirstOfKey(es, b0);
    SequenceOfRecord(fault, es, b0, f);
    InjectedRecord(fault, es, b0, f);
    AnsweredRecord(fault, es, b0, f);
    x :| ShowsFailure(fault, es, b0, f, x);
  }

  lemma RecoversAfterCutOff(fault: Fault, es: seq<Event>, b0: nat, f: nat, b: nat, r: nat)
    requires IsFirstOnTarget(es, b0) && f < |Run(fault, es).requests| && Told(fault, es, b0, Run(fault, es).requests[f])
    requires Run(fault, es).requests[f].failed
    requires r < |Run(fault, es).requests| && Told(fault, es, b, Run(fault, es).requests[r])
    ensures IsRecoveryOf(Run(fault, es), LastWipe(fault, es), f, r) <==> Recovers(fault, es, b0, b)
  {
    hide Run, Told, IsFirstOnTarget, AnsweredExactly, IsCutOff, Reconnects, IsEarliest, FailedSince, ShowsFailure, LastWipe, Registry, Records, Links, LinkedOnly, SomeRecovery;
    var s := Run(fault, es);
    var fault0 := s.requests[f];
    var x := CutOffRecord(fault, es, b0, fault0);
    ReconnectionsAreAsked(fault, es, b0, fault0, x);
    var told := set b | 0 <= b < |es| && Reconnects(es, b0, x, b);
    EarliestIsFirst(fault, es, Recovering(s.targetThreadId, fault0), told, b, r);
    forall b2: nat ensures b2 in told <==> Reconnects(es, b0, x, b2) {
      if Reconnects(es, b0, x, b2) {
        ReconnectorIsFirstOfKey(es, b0, x, b2);
      }
    }
    assert IsEarliest(s.requests, Recovering(s.targetThreadId, fault0), r) <==> ReconnectsFirst(es, b0, x, b);
    assert FailedSince(es, b0, es[b0].key) by { FailedRecord(fault, es, b0, fault0); }
    InjectedRecord(fault, es, b0, fault0);
    RunKeepsFault(fault, es);
    RunKeepsInv(fault, es);
    assert LinkedExactly(s, LastWipe(fault, es), fault0);
    EarliestRecovers(s, fault0, r);
    assert (exists x': nat :: IsCutOffAndCaughtBy(es, b0, x', b)) <==> IsCutOffAndCaughtBy(es, b0, x, b);
  }

  lemma FailedRecord(fault: Fault, es: seq<Event>, b: nat, r: Record)
    requires Told(fault, es, b, r)
    ensures r.failed <==> FailedSince(es, b, r.request.key)
  {
  }

  lemma EarliestRecovers(s: Probe, failed: Record, r: nat)
    ensures IsEarliest(s.requests, Recovering(s.targetThreadId, failed), r) ==> SomeRecovery(s, failed)
  {
  }

  lemma RecoversWhileStanding(fault: Fault, es: seq<Event>, b0: nat, f: nat, b: nat, r: nat)
    requires IsFirstOnTarget(es, b0) && f < |Run(fault, es).requests| && Told(fault, es, b0, Run(fault, es).requests[f])
    requires !Run(fault, es).requests[f].failed
    requires r < |Run(fault, es).requests| && Told(fault, es, b, Run(fault, es).requests[r])
    ensures IsRecoveryOf(Run(fault, es), LastWipe(fault, es), f, r) <==> Recovers(fault, es, b0, b)
  {
    hide Run, Told, IsFirstOnTarget, AnsweredExactly, IsEarliest, FailedSince, FinishedSince, LastWipe, Registry, Links, LinkedExactly, IsCandidate, OrdinaryTerminal, Records, First;
    var s := Run(fault, es);
    var fault0 := s.requests[f];
    FirstWithKey(fault, es, b0, f);
    InjectedRecord(fault, es, b0, fault0);
    FailedRecord(fault, es, b0, fault0);
    StandingRecord(fault, es, b0, fault0);
    RunKeepsInv(fault, es);
    SettledRecord(s, f);
    if OrdinaryTerminal(fault0) {
      var terminal := fault0.successfulTerminalSequence.value;
      CandidatesAreAsked(fault, es, b0, terminal);
      var told := set b | 0 <= b < |es| && IsCandidate(fault, es, b0, b);
      EarliestIsFirst(fault, es, TargetAfter(s.targetThreadId, Max(LastWipe(fault, es), terminal)), told, b, r);
      forall b2: nat ensures b2 in told <==> IsCandidate(fault, es, b0, b2) {
        if IsCandidate(fault, es, b0, b2) {
          CandidateIsFirstOfKey(fault, es, b0, b2);
        }
      }
    } else {
      NoCandidateWithoutSuccess(fault, es, b0, b);
    }
  }

  lemma NoCandidateWithoutSuccess(fault: Fault, es: seq<Event>, b0: nat, b: nat)
    requires !Stands(fault, es, b0)
    ensures !IsCandidate(fault, es, b0, b)
  {
    hide Stands, Undisturbed;
    assert es[..|es|] == es;
    if IsCandidate(fault, es, b0, b) {
      CandidateIsFirstOfKey(fault, es, b0, b);
    }
  }

  ghost predicate RecoversWithKey(fault: Fault, es: seq<Event>, b0: nat, b: nat, key: RequestKey) {
    Recovers(fault, es, b0, b) && b < |es| && es[b].Begin? && es[b].key == key
  }

  lemma RecoveringIsFirstOfKey(fault: Fault, es: seq<Event>, b0: nat, b: nat)
    requires Recovers(fault, es, b0, b)
    ensures IsFirstOfKey(es, b) && b < |es| && es[b].Begin?
  {
    hide IsFirstOnTarget, AnsweredExactly, FailedSince, IsCutOff;
    FirstOnTargetIsFirstOfKey(es, b0);
  }

  /**
   * After every run, a request is the recovery request if and only if the events make it so:
   * after a cut-off it is the first reconnection; after a normal end it is the first request begun
   * on the target Thread while the fault stood successful, since when the fault has stood and no
   * response or failure of any registered request has come in (gap-close).
   */
  lemma RecoveryIff(fault: Fault, es: seq<Event>, key: RequestKey)
    ensures IsRecoveryRequest(Run(fault, es), key) <==> exists b0: nat, b: nat :: RecoversWithKey(fault, es, b0, b, key)
  {
    hide Run, IsRecoveryRequest, Recovers, Told, LastWipe, IsFirstOnTarget;
    var s := Run(fault, es);
    if IsRecoveryRequest(s, key) {
      var r := RecoveryIsRegistered(s, key);
      RecoveryIsExactlyTheEarliest(fault, es, r);
      var f: nat :| IsRecoveryOf(s, LastWipe(fault, es), f, r);
      EveryRecordIsTold(fault, es, f);
      EveryRecordIsTold(fault, es, r);
      var b0: nat :| Told(fault, es, b0, s.requests[f]);
      var b: nat :| Told(fault, es, b, s.requests[r]);
      InjectedRecord(fault, es, b0, s.requests[f]);
      RecoveryOfIff(fault, es, b0, f, b, r);
      FirstWithKey(fault, es, b, r);
      assert RecoversWithKey(fault, es, b0, b, key);
    }
    if b0: nat, b: nat :| RecoversWithKey(fault, es, b0, b, key) {
      RecoveringIsFirstOfKey(fault, es, b0, b);
      assert IsFirstOnTarget(es, b0) by { RecoveredIsFirstOnTarget(fault, es, b0, b); }
      FirstOnTargetIsFirstOfKey(es, b0);
      var f := RecordOfEvent(fault, es, b0);
      var r := RecordOfEvent(fault, es, b);
      FirstWithKey(fault, es, b, r);
      RecoveryOfIff(fault, es, b0, f, b, r);
      RecoveryIsExactlyTheEarliest(fault, es, r);
    }
  }

  lemma RecoveredIsFirstOnTarget(fault: Fault, es: seq<Event>, b0: nat, b: nat)
    requires Recovers(fault, es, b0, b)
    ensures IsFirstOnTarget(es, b0)
  {
  }

  lemma RecoveryIsRegistered(s: Probe, key: RequestKey) returns (r: nat)
    requires IsRecoveryRequest(s, key)
    ensures r < |s.requests| && s.requests[r].request.key == key
  {
    r := First(s.requests, WithKey(key));
  }

  lemma RecoveryOfIff(fault: Fault, es: seq<Event>, b0: nat, f: nat, b: nat, r: nat)
    requires IsFirstOnTarget(es, b0) && f < |Run(fault, es).requests| && Told(fault, es, b0, Run(fault, es).requests[f])
    requires r < |Run(fault, es).requests| && Told(fault, es, b, Run(fault, es).requests[r])
    ensures IsRecoveryOf(Run(fault, es), LastWipe(fault, es), f, r) <==> Recovers(fault, es, b0, b)
  {
    hide *;
    if Run(fault, es).requests[f].failed {
      RecoversAfterCutOff(fault, es, b0, f, b, r);
    } else {
      RecoversWhileStanding(fault, es, b0, f, b, r);
    }
  }

  // ----- "only the first target request begun after fault success is recovery"

  ghost predicate BegunSinceSuccess(fault: Fault, es: seq<Event>, b0: nat, b: nat) {
    OnTarget(es, b) && StandsFrom(fault, es, b0, b)
  }

  /**
   * While a normally ended fault stands, the first target request begun since its success is the
   * recovery request if and only if, in gap-close, no response or failure of a registered request
   * has come in since that request began.
   */
  lemma FirstSinceSuccessIsRecoveryIff(fault: Fault, es: seq<Event>, b0: nat, b: nat)
    requires IsFirstOnTarget(es, b0) && BegunSinceSuccess(fault, es, b0, b)
    requires forall b2: nat :: b2 < b ==> !BegunSinceSuccess(fault, es, b0, b2)
    ensures b < |es| && es[b].Begin?
    ensures IsRecoveryRequest(Run(fault, es), es[b].key) <==> Undisturbed(fault, es, b)
  {
    hide Run, IsRecoveryRequest, IsFirstOnTarget, Undisturbed, Recovers, BegunSinceSuccess, IsFirstOfKey;
    BegunIsFirstOfKey(fault, es, b0, b);
    RecoveryIff(fault, es, es[b].key);
    RecoversSinceSuccessIff(fault, es, b0, b);
    if Recovers(fault, es, b0, b) {
      assert RecoversWithKey(fault, es, b0, b, es[b].key);
    }
    forall b1: nat, b2: nat | RecoversWithKey(fault, es, b1, b2, es[b].key) ensures Recovers(fault, es, b0, b) {
      RecoveredIsFirstOnTarget(fault, es, b1, b2);
      OnlyOneIsFirst(es, b0, b1);
      RecoveringIsFirstOfKey(fault, es, b1, b2);
      SameKeySameEvent(es, b, b2);
    }
  }

  lemma RecoversSinceSuccessIff(fault: Fault, es: seq<Event>, b0: nat, b: nat)
    requires IsFirstOnTarget(es, b0) && BegunSinceSuccess(fault, es, b0, b)
    requires forall b2: nat :: b2 < b ==> !BegunSinceSuccess(fault, es, b0, b2)
    ensures Recovers(fault, es, b0, b) <==> Undisturbed(fault, es, b)
  {
    hide IsFirstOnTarget, Undisturbed, AnsweredExactly, FinishedSince, FailedSince, StandsFrom, IsCutOffAndCaughtBy, OnTarget;
    BegunIsFirstOfKey(fault, es, b0, b);
    StandsNow(fault, es, b0, b);
    forall b2: nat | b2 < b ensures !IsCandidate(fault, es, b0, b2) {
      assert !BegunSinceSuccess(fault, es, b0, b2);
    }
    assert IsCandidate(fault, es, b0, b) <==> Undisturbed(fault, es, b);
  }

  lemma BegunIsFirstOfKey(fault: Fault, es: seq<Event>, b0: nat, b: nat)
    requires BegunSinceSuccess(fault, es, b0, b)
    ensures IsFirstOfKey(es, b) && b < |es| && es[b].Begin?
  {
  }

  lemma StandsNow(fault: Fault, es: seq<Event>, b0: nat, b: nat)
    requires StandsFrom(fault, es, b0, b) && b <= |es|
    ensures Stands(fault, es, b0)
  {
    hide Stands;
    assert es[..|es|] == es;
  }

  lemma SameKeySameEvent(es: seq<Event>, b: nat, b': nat)
    requires IsFirstOfKey(es, b) && IsFirstOfKey(es, b') && es[b].key == es[b'].key
    ensures b == b'
  {
    hide Strings.Trim;
  }
}
