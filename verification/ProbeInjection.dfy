/**
 * Which request gets the fault, read off the events alone: the first request on the Thread that
 * was bound first.
 */
module ProbeInjection {
  import opened Options
  import opened FaultReceiptProbe
  import opened ProbeInvariant
  import opened ProbeRuns
  import opened ProbeTraces
  import Strings

  // ----- the events that count

  predicate Binds(e: Event) { e.BindTarget? && 0 < |Strings.Trim(e.threadId)| <= 200 }

  /** A begin that can only be refused for its key. */
  predicate IsProper(e: Event) {
    && e.Begin? && !e.url.hasFaultParameter && e.url.threadSegment.Some?
    && 0 < |Strings.Trim(e.url.threadSegment.value)| <= 200
  }

  /** Event `j` is the first that names a Thread to bind. */
  ghost predicate BoundBy(es: seq<Event>, j: nat) {
    && j < |es| && Binds(es[j])
    && forall i :: 0 <= i < j ==> !Binds(es[i])
  }

  ghost predicate Targets(es: seq<Event>, threadId: string) {
    exists j: nat :: BoundBy(es, j) && Strings.Trim(es[j].threadId) == threadId
  }

  ghost predicate IsFirstOfKey(es: seq<Event>, b: nat) {
    && b < |es| && IsProper(es[b])
    && forall j :: 0 <= j < b ==> !(IsProper(es[j]) && es[j].key == es[b].key)
  }

  ghost predicate OnTarget(es: seq<Event>, b: nat) {
    IsFirstOfKey(es, b) && Targets(es[..b], Strings.Trim(es[b].url.threadSegment.value))
  }

  ghost predicate IsFirstOnTarget(es: seq<Event>, b: nat) {
    OnTarget(es, b) && forall j: nat :: j < b ==> !OnTarget(es, j)
  }

  // ----- the fields that hardly any event changes

  /** What an event about a registered request leaves alone. */
  ghost predicate SameIssue(s: Probe, s': Probe) {
    && s'.targetThreadId == s.targetThreadId && s'.faultInjectionIssued == s.faultInjectionIssued
    && (s'.inFlightInjectedRequest == s.inFlightInjectedRequest || s'.inFlightInjectedRequest.None?)
  }

  lemma TouchKeepsIssue(s: Probe, i: nat, r: Record)
    requires i < |s.requests|
    ensures SameIssue(s, Touch(s, i, r)) && SameIssue(s, PutSynced(s, i, r))
  {
    hide SuccessfulFault, Count, First, Earliest;
    RelinkKeepsIssue(PutSynced(s, i, r).(requests := Cleared(PutSynced(s, i, r).requests)));
  }

  lemma RelinkKeepsIssue(s: Probe)
    ensures SameIssue(s, Relink(s))
  {
    hide Count, First, Earliest;
  }

  lemma ReleaseKeepsIssue(s: Probe, s': Probe, i: nat)
    requires SameIssue(s, s') && i < |s'.requests|
    ensures SameIssue(s, ReleaseIfTerminal(s', i))
  {
  }

  lemma OtherEventsKeepIssue(s: Probe, e: Event)
    requires !e.BindTarget? && !e.Begin?
    ensures SameIssue(s, Step(s, e))
  {
    hide Touch, PutSynced, SameIssue, ReleaseIfTerminal, First, AfterFailure, AfterResponse;
    var i := First(s.requests, WithKey(e.key));
    if i == |s.requests| {
      assert Step(s, e) == s;
      SameIssueOfSame(s);
    } else {
      match e
      case ResponseStarted(_, status) =>
        TouchKeepsIssue(s, i, s.requests[i].(responseHeadersPending := true, status := Some(status)));
      case Response(_, status, receipt) =>
        var r := AfterResponse(s.fault, s.requests[i], status, receipt);
        TouchKeepsIssue(s, i, r);
        ReleaseKeepsIssue(s, Touch(s, i, r), i);
      case Finished(_) =>
        var r := s.requests[i].(finished := true);
        TouchKeepsIssue(s, i, r);
        ReleaseKeepsIssue(s, PutSynced(s, i, r), i);
      case Failure(_, errorText) =>
        var r, dated := AfterFailure(s, s.requests[i], errorText), s.(sequence := s.sequence + 1);
        TouchKeepsIssue(dated, i, r);
        ReleaseKeepsIssue(dated, Touch(dated, i, r), i);
        SameIssueOfDated(s, Step(s, e));
    }
  }

  lemma SameIssueOfSame(s: Probe)
    ensures SameIssue(s, s)
  {
  }

  lemma SameIssueOfDated(s: Probe, s': Probe)
    requires SameIssue(s.(sequence := s.sequence + 1), s')
    ensures SameIssue(s, s')
  {
  }

  // ----- the target

  lemma TargetAfter(s: Probe, e: Event)
    ensures Step(s, e).targetThreadId
         == if s.targetThreadId.None? && Binds(e) then Some(Strings.Trim(e.threadId)) else s.targetThreadId
  {
    hide RecordFailure, RecordFinished, RecordResponse, RecordResponseStarted, Strings.Trim, NewRecord, Accepts;
    if !e.BindTarget? && !e.Begin? {
      OtherEventsKeepIssue(s, e);
    }
  }

  /** After every run the target is the Thread named by the first valid binding, if there is one. */
  lemma {:induction false} TargetIsTheFirstBound(fault: Fault, es: seq<Event>)
    ensures var target := Run(fault, es).targetThreadId;
            && (forall t :: target == Some(t) <==> Targets(es, t))
            && (target.None? ==> forall j :: 0 <= j < |es| ==> !Binds(es[j]))
  {
    hide Step, Binds, Strings.Trim;
    if es != [] {
      var before, e := es[..|es| - 1], es[|es| - 1];
      TargetIsTheFirstBound(fault, before);
      TargetAfter(Run(fault, before), e);
      forall t ensures Run(fault, es).targetThreadId == Some(t) <==> Targets(es, t) {
        TargetsGrows(before, e, t);
        assert before + [e] == es;
      }
    }
  }

  lemma TargetsGrows(before: seq<Event>, e: Event, t: string)
    ensures Targets(before + [e], t) <==>
              Targets(before, t)
              || ((forall j :: 0 <= j < |before| ==> !Binds(before[j])) && Binds(e) && Strings.Trim(e.threadId) == t)
  {
    hide IsThreadId, Strings.Trim;
    var es := before + [e];
    assert forall i :: 0 <= i < |before| ==> es[i] == before[i];
    if j: nat :| BoundBy(before, j) && Strings.Trim(before[j].threadId) == t {
      assert BoundBy(es, j);
    }
    if (forall j :: 0 <= j < |before| ==> !Binds(before[j])) && Binds(e) {
      assert BoundBy(es, |before|);
    }
    if j: nat :| BoundBy(es, j) && Strings.Trim(es[j].threadId) == t {
      assert j < |before| ==> BoundBy(before, j);
      assert j == |before| ==> forall i :: 0 <= i < |before| ==> !Binds(before[i]);
    }
  }

  // ----- registration

  lemma {:induction false} RegisteredIff(fault: Fault, es: seq<Event>, key: RequestKey)
    ensures IsRegistered(Run(fault, es), key) <==> exists j :: 0 <= j < |es| && IsProper(es[j]) && es[j].key == key
  {
    hide Run, Step, Strings.Trim;
    if IsRegistered(Run(fault, es), key) {
      var i := First(Run(fault, es).requests, WithKey(key));
      EveryRecordIsTold(fault, es, i);
      var b: nat :| Told(fault, es, b, Run(fault, es).requests[i]);
      assert IsProper(es[b]);
    }
    if j :| 0 <= j < |es| && IsProper(es[j]) && es[j].key == key {
      var s := Run(fault, es[..j]);
      if IsRegistered(s, key) {
        StaysRegistered(fault, es, j, key);
      } else {
        BeginRegisters(s, key, es[j].url);
        RunOneMore(fault, es, j);
        StaysRegistered(fault, es, j + 1, key);
      }
    }
  }

  lemma RunOneMore(fault: Fault, es: seq<Event>, j: nat)
    requires j < |es|
    ensures Run(fault, es[..j + 1]) == Step(Run(fault, es[..j]), es[j])
  {
    hide Step;
    assert es[..j + 1][..j] == es[..j];
  }

  /** A begin registers its request exactly when it is the first proper one with its key. */
  lemma RegistersIffFirstOfKey(fault: Fault, es: seq<Event>, b: nat, key: RequestKey)
    ensures Registers(fault, es, b, key) <==> IsFirstOfKey(es, b) && es[b].key == key
  {
    hide Run, Strings.Trim, IsRegistered;
    if b < |es| && IsProper(es[b]) && es[b].key == key {
      RegisteredIff(fault, es[..b], key);
      assert forall j :: 0 <= j < b ==> es[..b][j] == es[j];
    }
  }

  // ----- injection

  ghost predicate Issued(es: seq<Event>, n: nat) {
    exists j: nat :: j < n && OnTarget(es, j)
  }

  lemma BeginIssues(s: Probe, e: Event)
    requires e.Begin? && (s.inFlightInjectedRequest.Some? ==> s.faultInjectionIssued)
    ensures var s' := Step(s, e);
            && (s'.faultInjectionIssued <==>
                  s.faultInjectionIssued
                  || (Accepts(s, e.key, e.url) && s.targetThreadId == Some(Strings.Trim(e.url.threadSegment.value))))
            && (s'.inFlightInjectedRequest.Some? ==> s'.faultInjectionIssued)
  {
    hide RecoveryAtBegin, SemanticStreamOffset, Strings.Trim, Accepts;
  }

  lemma AcceptedOnTarget(fault: Fault, es: seq<Event>, b: nat)
    requires b < |es| && es[b].Begin?
    ensures var s := Run(fault, es[..b]);
            OnTarget(es, b) <==>
              Accepts(s, es[b].key, es[b].url) && s.targetThreadId == Some(Strings.Trim(es[b].url.threadSegment.value))
  {
    hide Run, Strings.Trim, IsRegistered, Targets;
    RegistersIffFirstOfKey(fault, es, b, es[b].key);
    TargetIsTheFirstBound(fault, es[..b]);
  }

  /** The fault has been issued exactly when some request was begun on the target. */
  lemma {:induction false} IssuedIff(fault: Fault, es: seq<Event>, n: nat)
    requires n <= |es|
    ensures var s := Run(fault, es[..n]);
            && (s.faultInjectionIssued <==> Issued(es, n))
            && (s.inFlightInjectedRequest.Some? ==> s.faultInjectionIssued)
  {
    hide Step, OnTarget, Accepts, Strings.Trim;
    if n == 0 {
      RunOfNone(fault, es);
    } else {
      hide Run;
      var s, e := Run(fault, es[..n - 1]), es[n - 1];
      IssuedIff(fault, es, n - 1);
      RunOneMore(fault, es, n - 1);
      IssuedGrows(es, n - 1);
      if e.Begin? {
        BeginIssues(s, e);
        AcceptedOnTarget(fault, es, n - 1);
      } else {
        QuietEvents(s, e);
        OnlyBeginsAreOnTarget(es, n - 1);
      }
    }
  }

  lemma RunOfNone(fault: Fault, es: seq<Event>)
    ensures Run(fault, es[..0]) == Initial(fault)
  {
  }

  lemma IssuedGrows(es: seq<Event>, n: nat)
    ensures Issued(es, n + 1) <==> Issued(es, n) || OnTarget(es, n)
  {
    hide OnTarget;
  }

  lemma OnlyBeginsAreOnTarget(es: seq<Event>, b: nat)
    ensures OnTarget(es, b) ==> b < |es| && es[b].Begin?
  {
  }

  lemma QuietEvents(s: Probe, e: Event)
    requires !e.Begin?
    ensures Step(s, e).faultInjectionIssued == s.faultInjectionIssued
    ensures Step(s, e).inFlightInjectedRequest.Some? ==> s.inFlightInjectedRequest.Some?
  {
    hide RecordFailure, RecordFinished, RecordResponse, RecordResponseStarted, Strings.Trim;
    if !e.BindTarget? {
      OtherEventsKeepIssue(s, e);
    }
  }

  /**
   * In every run the fault goes into exactly one kind of request: the first one begun on the
   * Thread that was bound first, as soon as it begins.
   */
  lemma InjectedIffFirstOnTarget(fault: Fault, es: seq<Event>, b: nat)
    ensures InjectedBy(fault, es, b) <==> IsFirstOnTarget(es, b)
  {
    hide Run, OnTarget, Accepts, Strings.Trim;
    OnlyBeginsAreOnTarget(es, b);
    if b < |es| && es[b].Begin? {
      AcceptedOnTarget(fault, es, b);
      IssuedIff(fault, es, b);
    }
  }

  /**
   * What a begin answers, told by the events before it: rejected unless it is the first proper one
   * with its key, and carrying the fault exactly when it is the first on the target.
   */
  lemma AnswerOfBegin(fault: Fault, es: seq<Event>, key: RequestKey, url: AgentUrl)
    ensures var all := es + [Begin(key, url)];
            BeginRequest(Run(fault, es), key, url).1
            == if !IsFirstOfKey(all, |es|) then Rejected else Registered(IsFirstOnTarget(all, |es|))
  {
    hide Run, IsFirstOfKey, IsFirstOnTarget, Strings.Trim, RecoveryAtBegin, SemanticStreamOffset, Injects, Accepts;
    var all := es + [Begin(key, url)];
    assert all[..|es|] == es && all[|es|] == Begin(key, url);
    RegistersIffFirstOfKey(fault, all, |es|, key);
    InjectedIffFirstOnTarget(fault, all, |es|);
  }

  // ----- the request in flight

  predicate HasEnded(r: Record) { r.failed || (r.finished && !r.responseHeadersPending) }

  ghost predicate FaultEnded(s: Probe) {
    exists i :: 0 <= i < |s.requests| && s.requests[i].request.faultInjected && HasEnded(s.requests[i])
  }

  ghost predicate IsInjectedKey(s: Probe, key: RequestKey) {
    exists i :: 0 <= i < |s.requests| && s.requests[i].request.faultInjected && s.requests[i].request.key == key
  }

  lemma TouchKeepsInFlight(s: Probe, i: nat, r: Record)
    requires i < |s.requests|
    ensures Touch(s, i, r).inFlightInjectedRequest == s.inFlightInjectedRequest
    ensures PutSynced(s, i, r).inFlightInjectedRequest == s.inFlightInjectedRequest
  {
    hide SuccessfulFault, Count, First, Earliest;
  }

  lemma SameEnd(r: Record, r': Record)
    requires Facts(r') == Facts(r)
    ensures HasEnded(r') == HasEnded(r) && r'.request == r.request
  {
    assert r'.request == Facts(r').request && r'.failed == Facts(r').failed && r'.finished == Facts(r').finished;
    assert r'.responseHeadersPending == Facts(r').responseHeadersPending;
  }

  /** An event about record `i` releases the request in flight exactly when that is record `i`, ended. */
  lemma EventReleases(s: Probe, e: Event, i: nat)
    requires !e.BindTarget? && !e.Begin? && i < |s.requests| && i == First(s.requests, WithKey(e.key))
    ensures var r := Updated(s, e, s.requests[i]);
            Step(s, e).inFlightInjectedRequest ==
              if !e.ResponseStarted? && s.inFlightInjectedRequest == Some(e.key) && HasEnded(r) then None
              else s.inFlightInjectedRequest
  {
    hide Touch, PutSynced, First, AfterFailure, AfterResponse;
    var r := Updated(s, e, s.requests[i]);
    var dated := if e.Failure? then s.(sequence := s.sequence + 1) else s;
    TouchKeepsInFlight(dated, i, r);
    TouchKeepsFacts(dated, i, r);
    PutSyncedKeepsFacts(dated, i, r);
    SameEnd(r, Touch(dated, i, r).requests[i]);
    SameEnd(r, PutSynced(dated, i, r).requests[i]);
    UpdatedKeepsKey(s, e, s.requests[i]);
  }

  lemma PutSyncedKeepsFacts(s: Probe, i: nat, r: Record)
    requires i < |s.requests|
    ensures Facts(PutSynced(s, i, r).requests[i]) == Facts(r)
  {
    hide SuccessfulFault;
    var p := PutSynced(s, i, r).requests[i];
    assert p == r.(successfulTerminalSequence := p.successfulTerminalSequence);
  }

  lemma AboutKeepsCount(s: Probe, e: Event)
    requires !e.BindTarget? && !e.Begin?
    ensures |Step(s, e).requests| == |s.requests|
  {
    hide Touch, PutSynced, First, ReleaseIfTerminal, AfterFailure, AfterResponse;
  }

  lemma UpdatedKeepsKey(s: Probe, e: Event, r: Record)
    ensures Updated(s, e, r).request == r.request
  {
  }

  /** The request in flight carries the fault and has not ended. */
  ghost predicate FliesOk(s: Probe) {
    s.inFlightInjectedRequest.Some? ==> IsInjectedKey(s, s.inFlightInjectedRequest.value) && !FaultEnded(s)
  }

  /** After a step the fault is in flight exactly if it was, or was just sent, and has not ended. */
  ghost predicate FliesOn(s: Probe, s': Probe) {
    && (s'.inFlightInjectedRequest.Some? <==>
          (s.inFlightInjectedRequest.Some? || (!SomeInjected(s.requests) && SomeInjected(s'.requests))) && !FaultEnded(s'))
    && FliesOk(s')
  }

  lemma BeginFliesOn(s: Probe, key: RequestKey, url: AgentUrl)
    requires Registry(s) && FliesOk(s)
    ensures FliesOn(s, Step(s, Begin(key, url)))
  {
    hide Accepts, Strings.Trim, SemanticStreamOffset, RecoveryAtBegin;
    var s' := Step(s, Begin(key, url));
    var n := |s.requests|;
    assert forall i :: 0 <= i < n ==> s'.requests[i] == s.requests[i];
    if Accepts(s, key, url) {
      assert !HasEnded(s'.requests[n]);
      if s'.requests[n].request.faultInjected {
        assert IsInjectedKey(s', key);
      }
      if SomeInjected(s.requests) {
        var i :| 0 <= i < n && s.requests[i].request.faultInjected;
        assert s'.requests[i].request.faultInjected;
      }
      KeyStaysInjected(s, s');
    }
  }

  lemma KeyStaysInjected(s: Probe, s': Probe)
    requires |s.requests| <= |s'.requests|
    requires forall i :: 0 <= i < |s.requests| ==> s'.requests[i].request == s.requests[i].request
    ensures forall key :: IsInjectedKey(s, key) ==> IsInjectedKey(s', key)
    ensures SomeInjected(s.requests) ==> SomeInjected(s'.requests)
  {
    forall key | IsInjectedKey(s, key) ensures IsInjectedKey(s', key) {
      var i :| 0 <= i < |s.requests| && s.requests[i].request.faultInjected && s.requests[i].request.key == key;
      assert s'.requests[i].request.faultInjected && s'.requests[i].request.key == key;
    }
    if SomeInjected(s.requests) {
      var i :| 0 <= i < |s.requests| && s.requests[i].request.faultInjected;
      assert s'.requests[i].request.faultInjected;
    }
  }

  lemma SameInjected(s: Probe, s': Probe)
    requires SameRequests(s.requests, s'.requests)
    ensures SomeInjected(s.requests) <==> SomeInjected(s'.requests)
    ensures forall key :: IsInjectedKey(s, key) <==> IsInjectedKey(s', key)
  {
    KeyStaysInjected(s, s');
    KeyStaysInjected(s', s);
  }

  lemma OnlyOneInjected(s: Probe, f: nat)
    requires Registry(s) && f < |s.requests| && s.requests[f].request.faultInjected
    ensures FaultEnded(s) <==> HasEnded(s.requests[f])
  {
    forall i: nat | i < |s.requests| && s.requests[i].request.faultInjected ensures i == f {
      assert i < f ==> InOrder(s.requests[i].request, s.requests[f].request);
      assert f < i ==> InOrder(s.requests[f].request, s.requests[i].request);
    }
  }

  lemma AboutFliesOn(s: Probe, e: Event)
    requires Registry(s) && Registry(Step(s, e)) && FliesOk(s) && !e.BindTarget? && !e.Begin?
    ensures FliesOn(s, Step(s, e))
  {
    hide Step, Registry, HasEnded, Updated, First, FaultEnded, IsInjectedKey, SomeInjected;
    var s' := Step(s, e);
    StepUpdatesFacts(s, e);
    AboutKeepsCount(s, e);
    assert SameRequests(s.requests, s'.requests) by {
      forall i | 0 <= i < |s.requests| ensures s'.requests[i].request == s.requests[i].request {
        assert Facts(s'.requests[i]) == Facts(Updated(s, e, s.requests[i]));
        SameEnd(Updated(s, e, s.requests[i]), s'.requests[i]);
        UpdatedKeepsKey(s, e, s.requests[i]);
      }
    }
    SameInjected(s, s');
    var i := First(s.requests, WithKey(e.key));
    if i == |s.requests| {
      UnknownKeepsState(s, e);
    } else {
      EventReleases(s, e, i);
      if s.inFlightInjectedRequest.Some? {
        FlyingRecord(s, e, i);
      }
    }
  }

  lemma UnknownKeepsState(s: Probe, e: Event)
    requires !e.BindTarget? && !e.Begin? && First(s.requests, WithKey(e.key)) == |s.requests|
    ensures Step(s, e) == s
  {
    hide Touch, PutSynced, First, ReleaseIfTerminal;
  }

  lemma FlyingRecord(s: Probe, e: Event, i: nat)
    requires Registry(s) && Registry(Step(s, e)) && FliesOk(s) && s.inFlightInjectedRequest.Some?
    requires !e.BindTarget? && !e.Begin? && i < |s.requests| && i == First(s.requests, WithKey(e.key))
    requires SameRequests(s.requests, Step(s, e).requests) && UpdatesFacts(s, e, Step(s, e))
    ensures FaultEnded(Step(s, e)) <==>
              !e.ResponseStarted? && s.inFlightInjectedRequest == Some(e.key) && HasEnded(Updated(s, e, s.requests[i]))
  {
    hide Step, Registry, First;
    var s' := Step(s, e);
    var f: nat :| f < |s.requests| && s.requests[f].request.faultInjected
                  && s.requests[f].request.key == s.inFlightInjectedRequest.value;
    OnlyOneInjected(s, f);
    OnlyOneInjected(s', f);
    SameEnd(Updated(s, e, s.requests[f]), s'.requests[f]);
    SameIndexSameKey(s, i, f, e.key);
  }

  lemma SameIndexSameKey(s: Probe, i: nat, f: nat, key: RequestKey)
    requires Registry(s) && f < |s.requests| && i == First(s.requests, WithKey(key)) && i < |s.requests|
    ensures s.requests[f].request.key == key <==> f == i
  {
    assert i < f ==> InOrder(s.requests[i].request, s.requests[f].request);
    assert f < i ==> !WithKey(key).Holds(s.requests[f]);
  }

  lemma StepFliesOn(s: Probe, e: Event)
    requires Registry(s) && Registry(Step(s, e)) && FliesOk(s)
    ensures FliesOn(s, Step(s, e))
  {
    hide Step, Registry, FliesOk, FliesOn;
    if e.Begin? {
      BeginFliesOn(s, e.key, e.url);
    } else if e.BindTarget? {
      BindFliesOn(s, e.threadId);
    } else {
      AboutFliesOn(s, e);
    }
  }

  lemma BindFliesOn(s: Probe, threadId: string)
    requires FliesOk(s)
    ensures FliesOn(s, Step(s, BindTarget(threadId)))
  {
    hide Strings.Trim, HasEnded;
    SameInjected(s, Step(s, BindTarget(threadId)));
  }

  ghost predicate NeverEnded(fault: Fault, es: seq<Event>, n: nat)
    requires n <= |es|
  {
    forall m :: 0 <= m <= n ==> !FaultEnded(Run(fault, es[..m]))
  }

  lemma {:induction false} InjectedStays(fault: Fault, es: seq<Event>, m: nat, n: nat)
    requires m <= n <= |es| && SomeInjected(Run(fault, es[..m]).requests)
    ensures SomeInjected(Run(fault, es[..n]).requests)
    decreases n
  {
    hide Run, Step, SomeInjected, Registry, LastWipe, Links, Records, LinkedExactly;
    if m < n {
      InjectedStays(fault, es, m, n - 1);
      RunOneMore(fault, es, n - 1);
      RunKeepsInv(fault, es[..n - 1]);
      RunKeepsInv(fault, es[..n]);
      IssuedStays(Run(fault, es[..n - 1]), es[n - 1]);
      RegistryIssued(Run(fault, es[..n - 1]));
      RegistryIssued(Run(fault, es[..n]));
    }
  }

  lemma RegistryIssued(s: Probe)
    requires Registry(s)
    ensures s.faultInjectionIssued <==> SomeInjected(s.requests)
  {
  }

  lemma IssuedStays(s: Probe, e: Event)
    ensures s.faultInjectionIssued ==> Step(s, e).faultInjectionIssued
  {
    hide RecordFailure, RecordFinished, RecordResponse, RecordResponseStarted, Strings.Trim, NewRecord, Accepts;
    if !e.BindTarget? && !e.Begin? {
      OtherEventsKeepIssue(s, e);
    }
  }

  lemma EndedIsInjected(s: Probe)
    ensures FaultEnded(s) ==> SomeInjected(s.requests)
  {
  }

  lemma {:induction false} InFlightAt(fault: Fault, es: seq<Event>, n: nat)
    requires n <= |es|
    ensures var s := Run(fault, es[..n]);
            && (s.inFlightInjectedRequest.Some? <==> SomeInjected(s.requests) && NeverEnded(fault, es, n))
            && FliesOk(s)
  {
    hide Run, Step, SomeInjected, Registry, LastWipe, Links, Records, LinkedExactly, FaultEnded, FliesOk;
    if n == 0 {
      RunOfNone(fault, es);
      NothingFlies(fault);
    } else {
      InFlightAt(fault, es, n - 1);
      var s, s' := Run(fault, es[..n - 1]), Run(fault, es[..n]);
      RunOneMore(fault, es, n - 1);
      RunKeepsInv(fault, es[..n - 1]);
      RunKeepsInv(fault, es[..n]);
      StepFliesOn(s, es[n - 1]);
      if SomeInjected(s.requests) {
        InjectedStays(fault, es, n - 1, n);
      }
      if !SomeInjected(s.requests) {
        forall m | 0 <= m <= n - 1 ensures !FaultEnded(Run(fault, es[..m])) {
          EndedIsInjected(Run(fault, es[..m]));
          if SomeInjected(Run(fault, es[..m]).requests) {
            InjectedStays(fault, es, m, n - 1);
          }
        }
      }
    }
  }

  lemma NothingFlies(fault: Fault)
    ensures var s := Initial(fault); FliesOk(s) && s.inFlightInjectedRequest.None? && !SomeInjected(s.requests) && !FaultEnded(s)
  {
  }

  /**
   * After every run, a request is in flight if and only if it carries the fault and the fault has
   * never been seen to end: neither failed nor finished with its headers settled.
   */
  lemma InFlightIff(fault: Fault, es: seq<Event>, key: RequestKey)
    ensures Run(fault, es).inFlightInjectedRequest == Some(key) <==>
              IsInjectedKey(Run(fault, es), key) && NeverEnded(fault, es, |es|)
  {
    hide Run, NeverEnded, FaultEnded, Registry, LastWipe, Links, Records, LinkedExactly;
    assert es[..|es|] == es;
    InFlightAt(fault, es, |es|);
    RunKeepsInv(fault, es);
    InjectedKeyIsUnique(Run(fault, es));
  }

  lemma InjectedKeyIsUnique(s: Probe)
    requires Registry(s)
    ensures forall k, k' :: IsInjectedKey(s, k) && IsInjectedKey(s, k') ==> k == k'
    ensures forall k :: IsInjectedKey(s, k) ==> SomeInjected(s.requests)
  {
    forall k, k' | IsInjectedKey(s, k) && IsInjectedKey(s, k') ensures k == k' {
      var i: nat :| i < |s.requests| && s.requests[i].request.faultInjected && s.requests[i].request.key == k;
      var j: nat :| j < |s.requests| && s.requests[j].request.faultInjected && s.requests[j].request.key == k';
      assert i < j ==> InOrder(s.requests[i].request, s.requests[j].request);
      assert j < i ==> InOrder(s.requests[j].request, s.requests[i].request);
    }
  }
}
