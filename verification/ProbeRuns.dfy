/**
 * The invariant of the fault receipt probe after every run, whatever the order of its events, and
 * the sequence number of the last pass that wiped the recovery links.
 */
module ProbeRuns {
  import opened Options
  import opened FaultReceiptProbe
  import opened ProbeInvariant

  // ----- the terminal that callers see

  lemma InjectedIsUnique(s: Probe)
    requires Registry(s)
    ensures AtMostOne(s.requests, Injected)
    ensures forall q: Query :: (q == ReceiptedInjected || q == Successful(s.fault)) ==> AtMostOne(s.requests, q)
  {
    assert forall i, j :: 0 <= i < j < |s.requests| ==> InOrder(s.requests[i].request, s.requests[j].request);
  }

  lemma SingleTerminal(s: Probe, cleared: nat, f: nat)
    requires Inv(s, cleared)
    requires f < |s.requests| && s.requests[f].request.faultInjected
    ensures SingleSuccessfulTerminalSequence(s) == s.requests[f].successfulTerminalSequence
    ensures s.requests[f].successfulTerminalSequence.Some? <==> SuccessfulFault(s.fault, s.requests[f])
  {
    InjectedIsUnique(s);
    var q := Successful(s.fault);
    var fault := s.requests[f];
    assert LinkedExactly(s, cleared, fault);
    assert fault.successfulTerminalSequence.Some? <==> SuccessfulFault(s.fault, fault);
    FirstOfAtMostOne(s.requests, Injected, f);
    if SuccessfulFault(s.fault, fault) {
      assert q.Holds(s.requests[f]);
      FirstOfAtMostOne(s.requests, q, f);
    } else {
      forall i | 0 <= i < |s.requests| ensures !q.Holds(s.requests[i]) {
        if q.Holds(s.requests[i]) {
          assert Injected.Holds(s.requests[i]);
          FirstOfAtMostOne(s.requests, Injected, i);
        }
      }
    }
  }

  lemma NoTerminalWithoutInjection(s: Probe)
    requires !SomeInjected(s.requests)
    ensures SingleSuccessfulTerminalSequence(s) == None
  {
    assert forall i :: 0 <= i < |s.requests| ==> !Successful(s.fault).Holds(s.requests[i]);
  }

  // ----- registering a request

  lemma BeginKeepsRegistry(s: Probe, key: RequestKey, url: AgentUrl)
    requires Registry(s) && Records(s) && Accepts(s, key, url)
    ensures var s' := BeginRequest(s, key, url).0; Registry(s') && Records(s')
  {
    hide RecoveryAtBegin;
    var s' := BeginRequest(s, key, url).0;
    var r := s'.requests[|s.requests|];
    assert s'.requests == s.requests + [r];
    AppendKeepsRegistry(s, s', r);
  }

  lemma AppendKeepsRegistry(s: Probe, s': Probe, r: Record)
    requires Registry(s) && Records(s) && s'.requests == s.requests + [r]
    requires s'.sequence == s.sequence + 1 == r.request.requestSequence && s'.targetThreadId == s.targetThreadId
    requires !r.failed && r.failureSequence.None? && !r.receiptMatchesFault && r.receipt == Missing
    requires r.successfulTerminalSequence.None? && !r.finished
    requires forall i :: 0 <= i < |s.requests| ==> s.requests[i].request.key != r.request.key
    requires r.request.faultInjected ==> !s.faultInjectionIssued && Some(r.request.threadId) == s.targetThreadId
    requires s'.faultInjectionIssued == (s.faultInjectionIssued || r.request.faultInjected)
    ensures Registry(s') && Records(s')
  {
    var n := |s.requests|;
    assert s'.requests[n] == r;
    assert forall i :: 0 <= i < n ==> s'.requests[i] == s.requests[i];
    forall i, j | 0 <= i < j < |s'.requests| ensures InOrder(s'.requests[i].request, s'.requests[j].request) {
      if j < n {
        assert InOrder(s.requests[i].request, s.requests[j].request);
      } else {
        assert OnRecord(s.sequence, s.targetThreadId, s.requests[i].request);
      }
    }
    forall i | 0 <= i < |s'.requests| ensures OnRecord(s'.sequence, s'.targetThreadId, s'.requests[i].request) {
      assert i < n ==> OnRecord(s.sequence, s.targetThreadId, s.requests[i].request);
    }
    assert SomeInjected(s'.requests) <==> SomeInjected(s.requests) || r.request.faultInjected by {
      if SomeInjected(s.requests) {
        var i :| 0 <= i < n && s.requests[i].request.faultInjected;
        assert s'.requests[i].request.faultInjected;
      }
    }
  }

  /** A new request is linked only when it is the first target request since success and wiping. */
  lemma BeginLinks(s: Probe, cleared: nat, key: RequestKey, url: AgentUrl, f: nat)
    requires Inv(s, cleared) && Accepts(s, key, url)
    requires f < |s.requests| && s.requests[f].request.faultInjected
    ensures LinkedExactly(BeginRequest(s, key, url).0, cleared, s.requests[f])
  {
    var s' := BeginRequest(s, key, url).0;
    var n := |s.requests|;
    var fault := s.requests[f];
    var terminal := fault.successfulTerminalSequence;
    assert s'.requests[..n] == s.requests;
    SingleTerminal(s, cleared, f);
    assert s.faultInjectionIssued;
    if fault.failed {
      assert !RecoversFrom(s.targetThreadId, fault, s'.requests[n]);
      BeginKeepsRecoveries(s, cleared, s', fault);
    } else if terminal.Some? {
      var q := TargetAfter(s.targetThreadId, Max(cleared, terminal.value));
      var e := Earliest(s.requests, q);
      if e < n {
        assert IsEarliest(s.requests, q, e);
        assert s.requests[e].recoveryForTerminalSequence == terminal;
        AppendKeepsLinks(s.requests, s'.requests[n], terminal, q, e);
      } else {
        forall i | 0 <= i < n ensures s.requests[i].recoveryForTerminalSequence != terminal {
          assert !q.Holds(s.requests[i]);
          assert !IsEarliest(s.requests, q, i);
        }
        AppendFirstLink(s.requests, s'.requests[n], terminal, q);
      }
    }
  }

  lemma AppendKeepsLinks(rs: seq<Record>, r: Record, terminal: Option<nat>, q: Query, e: nat)
    requires LinkedOnly(rs, terminal, q) && IsEarliest(rs, q, e)
    requires r.recoveryForTerminalSequence != terminal
    requires q.Holds(r) ==> rs[e].request.requestSequence < r.request.requestSequence
    ensures LinkedOnly(rs + [r], terminal, q)
  {
    var rs' := rs + [r];
    forall i | 0 <= i < |rs'|
      ensures rs'[i].recoveryForTerminalSequence == terminal <==> IsEarliest(rs', q, i)
    {
      if i < |rs| {
        assert rs'[i] == rs[i];
        assert forall j :: 0 <= j < |rs| ==> rs'[j] == rs[j];
        assert IsEarliest(rs, q, i) ==> IsEarliest(rs', q, i);
      } else {
        assert rs'[e] == rs[e];
      }
    }
  }

  lemma AppendFirstLink(rs: seq<Record>, r: Record, terminal: Option<nat>, q: Query)
    requires forall i :: 0 <= i < |rs| ==> !q.Holds(rs[i]) && rs[i].recoveryForTerminalSequence != terminal
    requires r.recoveryForTerminalSequence == terminal <==> q.Holds(r)
    ensures LinkedOnly(rs + [r], terminal, q)
  {
  }

  lemma BeginKeepsRecoveries(s: Probe, cleared: nat, s': Probe, fault: Record)
    requires fault.failed && LinkedExactly(s, cleared, fault)
    requires |s'.requests| == |s.requests| + 1 && s'.requests[..|s.requests|] == s.requests
    requires s'.targetThreadId == s.targetThreadId && s'.fault == s.fault
    requires !RecoversFrom(s.targetThreadId, fault, s'.requests[|s.requests|])
    requires var terminal := fault.successfulTerminalSequence;
             (terminal.Some? && (exists i :: 0 <= i < |s.requests| && s.requests[i].recoveryForTerminalSequence == terminal)) ==>
               s'.requests[|s.requests|].recoveryForTerminalSequence != terminal
    ensures LinkedExactly(s', cleared, fault)
  {
    var n := |s.requests|;
    var terminal := fault.successfulTerminalSequence;
    assert s'.requests == s.requests + [s'.requests[n]];
    assert SomeRecovery(s, fault) <==> SomeRecovery(s', fault) by {
      if SomeRecovery(s, fault) {
        var r :| 0 <= r < n && RecoversFrom(s.targetThreadId, fault, s.requests[r]);
        assert s'.requests[r] == s.requests[r];
      }
      if SomeRecovery(s', fault) {
        var r :| 0 <= r <= n && RecoversFrom(s.targetThreadId, fault, s'.requests[r]);
        assert r < n && s'.requests[r] == s.requests[r];
      }
    }
    if terminal.Some? {
      var q := Recovering(s.targetThreadId, fault);
      var e := Earliest(s.requests, q);
      var r :| 0 <= r < n && RecoversFrom(s.targetThreadId, fault, s.requests[r]);
      assert q.Holds(s.requests[r]);
      assert s.requests[e].recoveryForTerminalSequence == terminal;
      AppendKeepsLinks(s.requests, s'.requests[n], terminal, q, e);
    }
  }

  lemma BeginKeepsLinks(s: Probe, cleared: nat, key: RequestKey, url: AgentUrl)
    requires Inv(s, cleared) && Accepts(s, key, url)
    ensures Links(BeginRequest(s, key, url).0)
  {
    var s' := BeginRequest(s, key, url).0;
    var n := |s.requests|;
    var link := s'.requests[n].recoveryForTerminalSequence;
    assert s'.requests[..n] == s.requests;
    if SomeInjected(s.requests) {
      var f :| 0 <= f < n && s.requests[f].request.faultInjected;
      SingleTerminal(s, cleared, f);
      assert Dated(s.sequence, s.requests[f]);
    } else {
      NoTerminalWithoutInjection(s);
    }
    forall i | 0 <= i < n ensures LinkOk(s'.sequence, s'.targetThreadId, s'.requests[i]) {
      assert LinkOk(s.sequence, s.targetThreadId, s.requests[i]);
    }
  }

  lemma BeginKeepsInv(s: Probe, cleared: nat, key: RequestKey, url: AgentUrl)
    requires Inv(s, cleared)
    ensures Inv(BeginRequest(s, key, url).0, cleared)
  {
    if Accepts(s, key, url) {
      var s' := BeginRequest(s, key, url).0;
      BeginKeepsRegistry(s, key, url);
      BeginKeepsLinks(s, cleared, key, url);
      assert s'.requests[..|s.requests|] == s.requests;
      forall f | 0 <= f < |s'.requests| && s'.requests[f].request.faultInjected
        ensures LinkedExactly(s', cleared, s'.requests[f])
      {
        if f < |s.requests| {
          BeginLinks(s, cleared, key, url, f);
        }
      }
    }
  }

  // ----- every run

  lemma BindKeepsInv(s: Probe, cleared: nat, threadId: string)
    requires Inv(s, cleared)
    ensures Inv(BindTargetThread(s, threadId), cleared)
  {
    var s' := BindTargetThread(s, threadId);
    if s.targetThreadId.None? && s' != s {
      forall i | 0 <= i < |s.requests|
        ensures !s.requests[i].request.faultInjected && s.requests[i].recoveryForTerminalSequence.None?
        ensures OnRecord(s'.sequence, s'.targetThreadId, s'.requests[i].request)
      {
        assert OnRecord(s.sequence, s.targetThreadId, s.requests[i].request);
        assert LinkOk(s.sequence, s.targetThreadId, s.requests[i]);
      }
    }
  }

  lemma LaterSequenceKeepsInv(s: Probe, cleared: nat, later: nat)
    requires Inv(s, cleared) && s.sequence <= later
    ensures Inv(s.(sequence := later), cleared)
  {
    var s' := s.(sequence := later);
    RegistryDependsOnRequests(s, s');
    assert forall i :: 0 <= i < |s.requests| ==> LinkOk(s.sequence, s.targetThreadId, s.requests[i]);
    forall f | 0 <= f < |s.requests| && s.requests[f].request.faultInjected
      ensures LinkedExactly(s', cleared, s'.requests[f])
    {
      assert LinkedExactly(s, cleared, s.requests[f]);
      assert SomeRecovery(s, s.requests[f]) == SomeRecovery(s', s'.requests[f]);
    }
  }

  lemma ReleaseKeepsInv(s: Probe, cleared: nat, i: nat)
    requires Inv(s, cleared) && i < |s.requests|
    ensures Inv(ReleaseIfTerminal(s, i), cleared)
  {
    var s' := ReleaseIfTerminal(s, i);
    forall f | 0 <= f < |s.requests| && s.requests[f].request.faultInjected
      ensures LinkedExactly(s', cleared, s'.requests[f])
    {
      assert LinkedExactly(s, cleared, s.requests[f]);
      assert SomeRecovery(s, s.requests[f]) == SomeRecovery(s', s'.requests[f]);
    }
  }

  /** Whether an event makes the probe wipe and recompute its recovery links. */
  predicate Reconciles(s: Probe, e: Event) {
    && s.fault == ArtifactGapClose
    && (e.ResponseStarted? || e.Response? || e.Failure?)
    && IsRegistered(s, e.key)
  }

  function WipedAt(s: Probe, e: Event, cleared: nat): nat {
    if Reconciles(s, e) then Step(s, e).sequence else cleared
  }

  lemma TouchKeepsInv(s: Probe, cleared: nat, i: nat, r: Record)
    requires Inv(s, cleared) && i < |s.requests|
    requires SameIdentity(s.requests[i], r) && Dated(s.sequence, r)
    ensures var s' := Touch(s, i, r);
            Inv(s', if s.fault == ArtifactGapClose then s'.sequence else cleared)
  {
    if s.fault == ArtifactGapClose {
      PutSyncedKeeps(s, i, r);
      ReconcileEstablishes(PutSynced(s, i, r));
    } else {
      PutSyncedKeepsInv(s, cleared, i, r);
    }
  }

  lemma StepKeepsInv(s: Probe, e: Event, cleared: nat)
    requires Inv(s, cleared)
    ensures Inv(Step(s, e), WipedAt(s, e, cleared))
  {
    match e
    case BindTarget(threadId) => BindKeepsInv(s, cleared, threadId);
    case Begin(key, url) => BeginKeepsInv(s, cleared, key, url);
    case Finished(key) => FinishedKeepsInv(s, cleared, key);
    case Failure(key, errorText) => FailureKeepsInv(s, cleared, key, errorText);
    case ResponseStarted(key, status) =>
      var i := First(s.requests, WithKey(key));
      if i < |s.requests| {
        TouchKeepsInv(s, cleared, i, s.requests[i].(responseHeadersPending := true, status := Some(status)));
      }
    case Response(key, status, receipt) => ResponseKeepsInv(s, cleared, key, status, receipt);
  }

  lemma FinishedKeepsInv(s: Probe, cleared: nat, key: RequestKey)
    requires Inv(s, cleared)
    ensures Inv(RecordFinished(s, key), cleared)
  {
    var i := First(s.requests, WithKey(key));
    if i < |s.requests| {
      var r := s.requests[i].(finished := true);
      PutSyncedKeepsInv(s, cleared, i, r);
      ReleaseKeepsInv(PutSynced(s, i, r), cleared, i);
    }
  }

  lemma TouchReleaseKeepsInv(s: Probe, cleared: nat, i: nat, r: Record)
    requires Inv(s, cleared) && i < |s.requests|
    requires SameIdentity(s.requests[i], r) && Dated(s.sequence, r)
    ensures var s' := ReleaseIfTerminal(Touch(s, i, r), i);
            Inv(s', if s.fault == ArtifactGapClose then s'.sequence else cleared)
  {
    TouchKeepsInv(s, cleared, i, r);
    var s' := Touch(s, i, r);
    ReleaseKeepsInv(s', if s.fault == ArtifactGapClose then s'.sequence else cleared, i);
  }

  lemma FailureIsDated(s: Probe, i: nat, errorText: string)
    requires Registry(s) && Records(s) && i < |s.requests|
    ensures var r := AfterFailure(s, s.requests[i], errorText);
            SameIdentity(s.requests[i], r) && Dated(s.sequence + 1, r)
  {
    assert OnRecord(s.sequence, s.targetThreadId, s.requests[i].request);
  }

  lemma FailureKeepsInv(s: Probe, cleared: nat, key: RequestKey, errorText: string)
    requires Inv(s, cleared)
    ensures Inv(RecordFailure(s, key, errorText), WipedAt(s, Failure(key, errorText), cleared))
  {
    hide Touch, LinkedExactly;
    var i := First(s.requests, WithKey(key));
    if i < |s.requests| {
      FailureIsDated(s, i, errorText);
      LaterSequenceKeepsInv(s, cleared, s.sequence + 1);
      TouchReleaseKeepsInv(s.(sequence := s.sequence + 1), cleared, i, AfterFailure(s, s.requests[i], errorText));
    }
  }

  lemma ResponseKeepsInv(s: Probe, cleared: nat, key: RequestKey, status: int, receipt: Option<string>)
    requires Inv(s, cleared)
    ensures Inv(RecordResponse(s, key, status, receipt), WipedAt(s, Response(key, status, receipt), cleared))
  {
    hide Touch, LinkedExactly;
    var i := First(s.requests, WithKey(key));
    if i < |s.requests| {
      TouchReleaseKeepsInv(s, cleared, i, AfterResponse(s.fault, s.requests[i], status, receipt));
    }
  }

  /** The sequence number at which the run last wiped the recovery links. */
  function LastWipe(fault: Fault, es: seq<Event>): nat {
    if es == [] then 0
    else WipedAt(Run(fault, es[..|es| - 1]), es[|es| - 1], LastWipe(fault, es[..|es| - 1]))
  }

  lemma StepKeepsFault(s: Probe, e: Event)
    ensures Step(s, e).fault == s.fault
  {
  }

  lemma {:induction false} RunKeepsFault(fault: Fault, es: seq<Event>)
    ensures Run(fault, es).fault == fault
  {
    if es != [] {
      RunKeepsFault(fault, es[..|es| - 1]);
      StepKeepsFault(Run(fault, es[..|es| - 1]), es[|es| - 1]);
    }
  }

  lemma InitialInv(fault: Fault)
    ensures Inv(Initial(fault), 0)
  {
  }

  lemma {:induction false} RunKeepsInv(fault: Fault, es: seq<Event>)
    ensures Inv(Run(fault, es), LastWipe(fault, es))
  {
    if es == [] {
      InitialInv(fault);
    } else {
      RunKeepsInv(fault, es[..|es| - 1]);
      StepKeepsInv(Run(fault, es[..|es| - 1]), es[|es| - 1], LastWipe(fault, es[..|es| - 1]));
    }
  }
}
