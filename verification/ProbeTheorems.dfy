/**
 * The main results about the fault receipt probe, each stated for every run of events.
 */
module ProbeTheorems {
  import opened Options
  import opened FaultReceiptProbe
  import opened ProbeInvariant
  import opened ProbeRuns

  /**
   * What an observed receipt must rest on, without reference to the probe's own bookkeeping of
   * terminal sequences and links.
   */
  ghost predicate Consumed(s: Probe, r: Record) {
    && r.request.faultInjected
    && r.status == Some(200) && !r.responseHeadersPending && r.receiptMatchesFault
    && (|| (r.finished && !r.failed)
        || (&& s.fault == ArtifactGapClose
            && r.failed && r.failureMatchesIntentionalClose && !r.finished
            && SomeRecovery(s, r)))
  }

  ghost predicate SomeConsumed(s: Probe) {
    exists f :: 0 <= f < |s.requests| && Consumed(s, s.requests[f])
  }

  /** After every run, the probe reports a receipt exactly when the evidence for it is there. */
  lemma ReceiptObservedIffConsumed(fault: Fault, es: seq<Event>)
    ensures ReceiptObserved(Run(fault, es)) <==> SomeConsumed(Run(fault, es))
  {
    hide *;
    RunKeepsInv(fault, es);
    ObservedIffConsumed(Run(fault, es), LastWipe(fault, es));
  }

  lemma ConsumedIffSuccessful(s: Probe, cleared: nat, f: nat)
    requires Inv(s, cleared) && f < |s.requests| && s.requests[f].request.faultInjected
    ensures Consumed(s, s.requests[f]) <==> SuccessfulFault(s.fault, s.requests[f])
  {
    hide Registry, Links, LinkedOnly, SomeRecovery;
    assert LinkedExactly(s, cleared, s.requests[f]);
  }

  lemma SuccessIsObserved(s: Probe, f: nat)
    requires Registry(s) && f < |s.requests| && SuccessfulFault(s.fault, s.requests[f])
    ensures ReceiptObserved(s)
  {
    hide Registry, Count, First, AtMostOne;
    InjectedIsUnique(s);
    var rs := s.requests;
    assert Injected.Holds(rs[f]) && ReceiptedInjected.Holds(rs[f]) && Successful(s.fault).Holds(rs[f]);
    FirstOfAtMostOne(rs, Injected, f);
    FirstOfAtMostOne(rs, ReceiptedInjected, f);
    FirstOfAtMostOne(rs, Successful(s.fault), f);
  }

  lemma ObservedIffConsumed(s: Probe, cleared: nat)
    requires Inv(s, cleared)
    ensures ReceiptObserved(s) <==> SomeConsumed(s)
  {
    hide Inv, Consumed, ReceiptObserved, SuccessfulFault, First;
    assert Registry(s) by { InvHasRegistry(s, cleared); }
    if SomeConsumed(s) {
      var f: nat :| f < |s.requests| && Consumed(s, s.requests[f]);
      ConsumedIsInjected(s, s.requests[f]);
      ConsumedIffSuccessful(s, cleared, f);
      SuccessIsObserved(s, f);
    }
    if ReceiptObserved(s) {
      var f := ObservedIsSuccess(s);
      ConsumedIffSuccessful(s, cleared, f);
    }
  }

  lemma InvHasRegistry(s: Probe, cleared: nat)
    requires Inv(s, cleared)
    ensures Registry(s)
  {
  }

  lemma ConsumedIsInjected(s: Probe, r: Record)
    requires Consumed(s, r)
    ensures r.request.faultInjected
  {
  }

  lemma ObservedIsSuccess(s: Probe) returns (f: nat)
    requires ReceiptObserved(s)
    ensures f < |s.requests| && s.requests[f].request.faultInjected && SuccessfulFault(s.fault, s.requests[f])
  {
    var q := Successful(s.fault);
    f := First(s.requests, q);
    assert (forall i :: 0 <= i < |s.requests| ==> !q.Holds(s.requests[i])) ==> Count(s.requests, q) == 0;
  }

  /** No run ever registers two injected requests. */
  lemma InjectsAtMostOnce(fault: Fault, es: seq<Event>, i: nat, j: nat)
    requires var rs := Run(fault, es).requests;
             i < j < |rs| && rs[i].request.faultInjected
    ensures !Run(fault, es).requests[j].request.faultInjected
  {
    RunKeepsInv(fault, es);
    var rs := Run(fault, es).requests;
    assert InOrder(rs[i].request, rs[j].request);
  }

  // ----- the recovery request

  /** The request that the probe must call the recovery of fault `f`. */
  ghost predicate IsRecoveryOf(s: Probe, wipe: nat, f: nat, r: nat) {
    && f < |s.requests| && s.requests[f].request.faultInjected
    && SuccessfulFault(s.fault, s.requests[f])
    && s.requests[f].successfulTerminalSequence.Some?
    && var terminal := s.requests[f].successfulTerminalSequence.value;
       if s.requests[f].failed
       then IsEarliest(s.requests, Recovering(s.targetThreadId, s.requests[f]), r)
       else IsEarliest(s.requests, TargetAfter(s.targetThreadId, Max(wipe, terminal)), r)
  }

  ghost predicate SomeFaultRecovered(s: Probe, wipe: nat, r: nat) {
    exists f: nat :: IsRecoveryOf(s, wipe, f, r)
  }

  lemma KeyFindsItsRecord(s: Probe, r: nat)
    requires Registry(s) && r < |s.requests|
    ensures First(s.requests, WithKey(s.requests[r].request.key)) == r
  {
    assert WithKey(s.requests[r].request.key).Holds(s.requests[r]);
    assert forall n :: 0 <= n < r ==> InOrder(s.requests[n].request, s.requests[r].request);
  }

  lemma InjectedAreTheSame(s: Probe, f: nat, f': nat)
    requires Registry(s) && f < |s.requests| && f' < |s.requests|
    requires s.requests[f].request.faultInjected && s.requests[f'].request.faultInjected
    ensures f == f'
  {
    assert f < f' ==> InOrder(s.requests[f].request, s.requests[f'].request);
    assert f' < f ==> InOrder(s.requests[f'].request, s.requests[f].request);
  }

  lemma EarliestAreTheSame(s: Probe, q: Query, r: nat, r': nat)
    requires Registry(s) && IsEarliest(s.requests, q, r) && IsEarliest(s.requests, q, r')
    ensures r == r'
  {
    assert r < r' ==> InOrder(s.requests[r].request, s.requests[r'].request);
    assert r' < r ==> InOrder(s.requests[r'].request, s.requests[r].request);
  }

  lemma RecoveryOfKnownFault(s: Probe, wipe: nat, f: nat, r: nat)
    requires Inv(s, wipe) && r < |s.requests|
    requires f < |s.requests| && s.requests[f].request.faultInjected
    ensures IsRecoveryRequest(s, s.requests[r].request.key) <==> IsRecoveryOf(s, wipe, f, r)
  {
    KeyFindsItsRecord(s, r);
    SingleTerminal(s, wipe, f);
    assert LinkedExactly(s, wipe, s.requests[f]);
  }

  lemma RecoveryIffEarliest(s: Probe, wipe: nat, r: nat)
    requires Inv(s, wipe) && r < |s.requests|
    ensures IsRecoveryRequest(s, s.requests[r].request.key) <==> SomeFaultRecovered(s, wipe, r)
  {
    hide LinkedExactly, IsRecoveryRequest, IsEarliest;
    if SomeInjected(s.requests) {
      var f :| 0 <= f < |s.requests| && s.requests[f].request.faultInjected;
      RecoveryOfKnownFault(s, wipe, f, r);
      forall f': nat | IsRecoveryOf(s, wipe, f', r) ensures f' == f {
        InjectedAreTheSame(s, f, f');
      }
    } else {
      NotRecoveryWithoutInjection(s, s.requests[r].request.key);
    }
  }

  lemma NotRecoveryWithoutInjection(s: Probe, key: RequestKey)
    requires !SomeInjected(s.requests)
    ensures !IsRecoveryRequest(s, key)
  {
    NoTerminalWithoutInjection(s);
  }

  /**
   * After every run, a registered request is the recovery request exactly when it is the
   * earliest request that recovers from the aborted fault or, when the fault ended normally, the
   * earliest request on the target Thread since that end and since the last reconcile pass.
   */
  lemma RecoveryIsExactlyTheEarliest(fault: Fault, es: seq<Event>, r: nat)
    requires r < |Run(fault, es).requests|
    ensures var s := Run(fault, es);
            IsRecoveryRequest(s, s.requests[r].request.key)
            <==> SomeFaultRecovered(s, LastWipe(fault, es), r)
  {
    hide *;
    RunKeepsInv(fault, es);
    RecoveryIffEarliest(Run(fault, es), LastWipe(fault, es), r);
  }

  /** `later` is on the bound Thread and began after fault `f` was cut off or succeeded. */
  ghost predicate FollowsFault(s: Probe, f: nat, later: Request) {
    && f < |s.requests| && s.requests[f].request.faultInjected
    && !later.faultInjected
    && Some(later.threadId) == s.targetThreadId
    && var since := if s.requests[f].failed then s.requests[f].failureSequence
                    else s.requests[f].successfulTerminalSequence;
       since.Some? && later.requestSequence > since.value
  }

  lemma RecoveryFollowsFault(s: Probe, wipe: nat, f: nat, r: nat)
    requires Inv(s, wipe) && r < |s.requests| && IsRecoveryOf(s, wipe, f, r)
    ensures FollowsFault(s, f, s.requests[r].request)
  {
    assert Dated(s.sequence, s.requests[f]);
    if s.requests[r].request.faultInjected {
      InjectedAreTheSame(s, f, r);
    }
  }

  /**
   * At most one request is the recovery request; it is not the injected one, it is on the bound
   * Thread, and it began after the failure of an aborted fault or after the success of a
   * finished one.
   */
  lemma RecoveryIsUniqueAndLater(fault: Fault, es: seq<Event>, r: nat, r': nat)
    requires r < |Run(fault, es).requests| && r' < |Run(fault, es).requests|
    requires var s := Run(fault, es);
             IsRecoveryRequest(s, s.requests[r].request.key) && IsRecoveryRequest(s, s.requests[r'].request.key)
    ensures r == r'
    ensures var s := Run(fault, es); exists f: nat :: FollowsFault(s, f, s.requests[r].request)
  {
    hide Run, LastWipe, IsRecoveryRequest, LinkedExactly, IsEarliest;
    var s, wipe := Run(fault, es), LastWipe(fault, es);
    RunKeepsInv(fault, es);
    RecoveryIffEarliest(s, wipe, r);
    RecoveryIffEarliest(s, wipe, r');
    var f: nat :| IsRecoveryOf(s, wipe, f, r);
    var f': nat :| IsRecoveryOf(s, wipe, f', r');
    InjectedAreTheSame(s, f, f');
    var terminal := s.requests[f].successfulTerminalSequence.value;
    EarliestAreTheSame(s, if s.requests[f].failed then Recovering(s.targetThreadId, s.requests[f])
                          else TargetAfter(s.targetThreadId, Max(wipe, terminal)), r, r');
    RecoveryFollowsFault(s, wipe, f, r);
  }
}
