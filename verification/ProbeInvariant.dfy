/**
 * The inductive invariant of the fault receipt probe and its preservation by every event, so
 * that it holds after every run.
 */
module ProbeInvariant {
  import opened Options
  import opened FaultReceiptProbe

  // ----- counting when at most one record can match

  ghost predicate AtMostOne(rs: seq<Record>, q: Query) {
    forall i, j :: 0 <= i < j < |rs| ==> !(q.Holds(rs[i]) && q.Holds(rs[j]))
  }

  lemma {:induction false} CountOfAtMostOne(rs: seq<Record>, q: Query)
    requires AtMostOne(rs, q)
    ensures Count(rs, q) == if First(rs, q) < |rs| then 1 else 0
  {
    if rs != [] {
      CountOfAtMostOne(rs[..|rs| - 1], q);
    }
  }

  lemma FirstOfAtMostOne(rs: seq<Record>, q: Query, i: nat)
    requires AtMostOne(rs, q)
    requires i < |rs| && q.Holds(rs[i])
    ensures First(rs, q) == i && Count(rs, q) == 1
  {
    CountOfAtMostOne(rs, q);
  }

  // ----- the invariant

  /** Two requests in registration order. */
  ghost predicate InOrder(a: Request, b: Request) {
    && a.key != b.key
    && a.requestSequence < b.requestSequence
    && !(a.faultInjected && b.faultInjected)
  }

  ghost predicate SomeInjected(rs: seq<Record>) {
    exists i :: 0 <= i < |rs| && rs[i].request.faultInjected
  }

  /** What registration guarantees: these facts involve only the immutable half of a record. */
  ghost predicate Registry(s: Probe) {
    && (forall i, j :: 0 <= i < j < |s.requests| ==> InOrder(s.requests[i].request, s.requests[j].request))
    && (s.faultInjectionIssued <==> SomeInjected(s.requests))
    && (forall i :: 0 <= i < |s.requests| ==> OnRecord(s.sequence, s.targetThreadId, s.requests[i].request))
  }

  ghost predicate OnRecord(sequence: nat, target: Option<string>, r: Request) {
    && 1 <= r.requestSequence <= sequence
    && (r.faultInjected ==> Some(r.threadId) == target)
  }

  /** What holds of each record on its own once its failure is dated. */
  ghost predicate Dated(sequence: nat, r: Record) {
    && (r.failed <==> r.failureSequence.Some?)
    && (r.failed ==> r.request.requestSequence < r.failureSequence.value <= sequence)
    && (r.receiptMatchesFault <==> r.receipt == Exact)
    && (r.successfulTerminalSequence.Some? ==>
          r.request.requestSequence < r.successfulTerminalSequence.value <= sequence)
  }

  /** A request that has not failed carries a terminal sequence exactly when it is terminal. */
  ghost predicate Settled(r: Record) {
    !r.failed ==> (OrdinaryTerminal(r) <==> r.successfulTerminalSequence.Some?)
  }

  ghost predicate Records(s: Probe) {
    forall i :: 0 <= i < |s.requests| ==> Dated(s.sequence, s.requests[i]) && Settled(s.requests[i])
  }

  ghost predicate Links(s: Probe) {
    && (forall i :: 0 <= i < |s.requests| ==> LinkOk(s.sequence, s.targetThreadId, s.requests[i]))
    && DistinctLinks(s.requests)
  }

  ghost predicate LinkOk(sequence: nat, target: Option<string>, r: Record) {
    r.recoveryForTerminalSequence.Some? ==>
      && !r.request.faultInjected
      && r.recoveryForTerminalSequence.value <= sequence
      && Some(r.request.threadId) == target
  }

  ghost predicate DistinctLinks(rs: seq<Record>) {
    forall i, j :: 0 <= i < j < |rs| && rs[i].recoveryForTerminalSequence.Some? ==>
      rs[i].recoveryForTerminalSequence != rs[j].recoveryForTerminalSequence
  }

  ghost predicate LinkedOnly(rs: seq<Record>, terminal: Option<nat>, q: Query) {
    forall r :: 0 <= r < |rs| ==> (rs[r].recoveryForTerminalSequence == terminal <==> IsEarliest(rs, q, r))
  }

  ghost predicate SomeRecovery(s: Probe, failed: Record) {
    exists r :: 0 <= r < |s.requests| && RecoversFrom(s.targetThreadId, failed, s.requests[r])
  }

  function Max(a: nat, b: nat): nat { if a < b then b else a }

  /**
   * Which record is linked to the terminal of the injected request `fault`. `cleared` is the
   * sequence number at which links were last wiped.
   */
  ghost predicate LinkedExactly(s: Probe, cleared: nat, fault: Record) {
    var terminal := fault.successfulTerminalSequence;
    if fault.failed then
      && (terminal.Some? <==> s.fault == ArtifactGapClose && AbortedFault(fault) && SomeRecovery(s, fault))
      && (terminal.Some? ==> LinkedOnly(s.requests, terminal, Recovering(s.targetThreadId, fault)))
    else
      terminal.Some? ==>
        LinkedOnly(s.requests, terminal, TargetAfter(s.targetThreadId, Max(cleared, terminal.value)))
  }

  ghost predicate Inv(s: Probe, cleared: nat) {
    && cleared <= s.sequence
    && Registry(s) && Records(s) && Links(s)
    && forall f :: 0 <= f < |s.requests| ==>
         if s.requests[f].request.faultInjected
         then LinkedExactly(s, cleared, s.requests[f])
         else s.requests[f].successfulTerminalSequence.None?
  }

  // ----- events that touch one record

  ghost predicate SameRequests(rs: seq<Record>, rs': seq<Record>) {
    |rs| == |rs'| && forall i :: 0 <= i < |rs| ==> rs'[i].request == rs[i].request
  }

  lemma RegistryDependsOnRequests(s: Probe, s': Probe)
    requires Registry(s) && SameRequests(s.requests, s'.requests)
    requires s.sequence <= s'.sequence && s.targetThreadId == s'.targetThreadId
    requires s.faultInjectionIssued == s'.faultInjectionIssued
    ensures Registry(s')
  {
    if SomeInjected(s.requests) {
      var i :| 0 <= i < |s.requests| && s.requests[i].request.faultInjected;
      assert s'.requests[i].request.faultInjected;
    }
    if SomeInjected(s'.requests) {
      var i :| 0 <= i < |s'.requests| && s'.requests[i].request.faultInjected;
      assert s.requests[i].request.faultInjected;
    }
  }

  /** `r` is `was` after an event: only status-like fields differ. */
  ghost predicate SameIdentity(was: Record, r: Record) {
    && r.request == was.request
    && r.recoveryForTerminalSequence == was.recoveryForTerminalSequence
    && r.successfulTerminalSequence == was.successfulTerminalSequence
    && (was.failed ==> r.failed)
  }

  lemma PutSyncedKeeps(s: Probe, i: nat, r: Record)
    requires Registry(s) && Records(s) && i < |s.requests|
    requires SameIdentity(s.requests[i], r) && Dated(s.sequence, r)
    ensures Registry(PutSynced(s, i, r)) && Records(PutSynced(s, i, r))
  {
    RegistryDependsOnRequests(s, PutSynced(s, i, r));
  }

  lemma ClearedKeeps(s: Probe)
    requires Registry(s) && Records(s)
    ensures var c := s.(requests := Cleared(s.requests));
            Registry(c) && Records(c) && AtMostOne(c.requests, ReconcilableFault)
  {
    hide Registry, Records, Cleared, Clear, AtMostOne;
    var c := s.(requests := Cleared(s.requests));
    ClearedRequests(s.requests);
    RegistryDependsOnRequests(s, c);
    RegistryHasOneFault(c);
    ClearedKeepsRecords(s);
  }

  lemma ClearedRequests(rs: seq<Record>)
    ensures SameRequests(rs, Cleared(rs))
  {
  }

  lemma RegistryHasOneFault(s: Probe)
    requires Registry(s)
    ensures AtMostOne(s.requests, ReconcilableFault)
  {
    var rs := s.requests;
    forall i, j | 0 <= i < j < |rs| ensures !(ReconcilableFault.Holds(rs[i]) && ReconcilableFault.Holds(rs[j])) {
      assert InOrder(rs[i].request, rs[j].request);
    }
  }

  lemma ClearedKeepsRecords(s: Probe)
    requires Records(s)
    ensures Records(s.(requests := Cleared(s.requests)))
  {
    hide OrdinaryTerminal;
    var c := s.(requests := Cleared(s.requests));
    forall i | 0 <= i < |s.requests| ensures Dated(c.sequence, c.requests[i]) && Settled(c.requests[i]) {
      ClearKeepsRecord(s.sequence, s.requests[i]);
    }
  }

  lemma ClearKeepsRecord(sequence: nat, r: Record)
    requires Dated(sequence, r) && Settled(r)
    ensures Dated(sequence, Clear(r)) && Settled(Clear(r))
  {
  }

  ghost predicate AllClear(rs: seq<Record>) {
    forall i :: 0 <= i < |rs| ==> Clear(rs[i]) == rs[i]
  }

  /** With every link wiped, the invariant needs only that no cut-off fault has a recovery. */
  lemma UnlinkedEstablishes(c: Probe)
    requires Registry(c) && Records(c) && AllClear(c.requests)
    requires forall f :: 0 <= f < |c.requests| && AbortedFault(c.requests[f]) ==> !SomeRecovery(c, c.requests[f])
    ensures Inv(c, c.sequence)
  {
    forall f | 0 <= f < |c.requests| && c.requests[f].request.faultInjected
      ensures LinkedExactly(c, c.sequence, c.requests[f])
    {
      assert Clear(c.requests[f]) == c.requests[f];
    }
  }

  lemma LinkKeeps(c: Probe, f: nat, r: nat)
    requires Registry(c) && Records(c) && AllClear(c.requests)
    requires f < |c.requests| && AbortedFault(c.requests[f]) && r < |c.requests| && r != f
    requires RecoversFrom(c.targetThreadId, c.requests[f], c.requests[r])
    ensures var s := Link(c, f, r); Registry(s) && Records(s) && Links(s)
  {
    RegistryDependsOnRequests(c, Link(c, f, r));
  }

  lemma LinkIsExact(c: Probe, f: nat, r: nat)
    requires c.fault == ArtifactGapClose && AllClear(c.requests)
    requires f < |c.requests| && AbortedFault(c.requests[f])
    requires forall i, j :: 0 <= i < j < |c.requests| ==> InOrder(c.requests[i].request, c.requests[j].request)
    requires IsEarliest(c.requests, Recovering(c.targetThreadId, c.requests[f]), r)
    ensures var s := Link(c, f, r); LinkedExactly(s, s.sequence, s.requests[f])
  {
    var s := Link(c, f, r);
    var fault, was := s.requests[f], c.requests[f];
    assert RecoversFrom(s.targetThreadId, fault, s.requests[r]);
    forall i | 0 <= i < |s.requests|
      ensures s.requests[i].recoveryForTerminalSequence == fault.successfulTerminalSequence
              <==> IsEarliest(s.requests, Recovering(s.targetThreadId, fault), i)
    {
      assert Clear(c.requests[i]) == c.requests[i];
      SameEarliest(c.requests, Recovering(c.targetThreadId, was), s.requests, Recovering(s.targetThreadId, fault), i);
      if i < r {
        assert InOrder(c.requests[i].request, c.requests[r].request);
      } else if r < i {
        assert InOrder(c.requests[r].request, c.requests[i].request);
      }
    }
  }

  lemma SameEarliest(rs: seq<Record>, q: Query, rs': seq<Record>, q': Query, i: nat)
    requires SameRequests(rs, rs')
    requires forall j :: 0 <= j < |rs| ==> q.Holds(rs[j]) == q'.Holds(rs'[j])
    ensures IsEarliest(rs, q, i) == IsEarliest(rs', q', i)
  {
  }

  /** After the reconcile pass no link but the one to the recovered fault is left. */
  lemma ReconcileEstablishes(s: Probe)
    requires s.fault == ArtifactGapClose
    requires Registry(s) && Records(s)
    ensures Inv(Reconcile(s), Reconcile(s).sequence)
  {
    hide Relink;
    ClearedKeeps(s);
    RelinkEstablishes(s.(requests := Cleared(s.requests)));
  }

  lemma RelinkEstablishes(c: Probe)
    requires c.fault == ArtifactGapClose
    requires Registry(c) && Records(c) && AllClear(c.requests) && AtMostOne(c.requests, ReconcilableFault)
    ensures Inv(Relink(c), Relink(c).sequence)
  {
    forall i | 0 <= i < |c.requests| ensures DatedFailure(c.requests[i]) {
      assert Dated(c.sequence, c.requests[i]);
    }
    var f, r := RelinkShape(c);
    if f < |c.requests| {
      LinkEstablishes(c, f, r);
    } else {
      UnlinkedEstablishes(c);
    }
  }

  ghost predicate DatedFailure(r: Record) {
    r.failed ==> r.failureSequence.Some? && r.failureSequence.value > 0
  }

  /** The reconcile pass either wipes every link or makes exactly one. */
  lemma RelinkShape(c: Probe) returns (f: nat, r: nat)
    requires AtMostOne(c.requests, ReconcilableFault)
    requires forall i :: 0 <= i < |c.requests| ==> DatedFailure(c.requests[i])
    ensures f < |c.requests| ==>
              && AbortedFault(c.requests[f])
              && IsEarliest(c.requests, Recovering(c.targetThreadId, c.requests[f]), r)
              && Relink(c) == Link(c, f, r)
    ensures f >= |c.requests| ==>
              && Relink(c) == c
              && forall i :: 0 <= i < |c.requests| && AbortedFault(c.requests[i]) ==> !SomeRecovery(c, c.requests[i])
  {
    var rs := c.requests;
    CountOfAtMostOne(rs, ReconcilableFault);
    f := First(rs, ReconcilableFault);
    r := 0;
    if f == |rs| {
      assert forall i :: 0 <= i < |rs| && AbortedFault(rs[i]) ==> ReconcilableFault.Holds(rs[i]);
      return;
    }
    r := Earliest(rs, Recovering(c.targetThreadId, rs[f]));
    if r == |rs| {
      forall i | 0 <= i < |rs| && AbortedFault(rs[i]) ensures !SomeRecovery(c, rs[i]) {
        assert ReconcilableFault.Holds(rs[i]);
        FirstOfAtMostOne(rs, ReconcilableFault, i);
        assert forall j :: 0 <= j < |rs| ==> !Recovering(c.targetThreadId, rs[f]).Holds(rs[j]);
      }
      f := |rs|;
    }
  }

  lemma LinkEstablishes(c: Probe, f: nat, r: nat)
    requires c.fault == ArtifactGapClose && Registry(c) && Records(c) && AllClear(c.requests)
    requires f < |c.requests| && AbortedFault(c.requests[f])
    requires IsEarliest(c.requests, Recovering(c.targetThreadId, c.requests[f]), r)
    ensures Inv(Link(c, f, r), Link(c, f, r).sequence)
  {
    var s := Link(c, f, r);
    LinkKeeps(c, f, r);
    LinkIsExact(c, f, r);
    forall i | 0 <= i < |s.requests|
      ensures if s.requests[i].request.faultInjected then i == f
              else s.requests[i].successfulTerminalSequence.None?
    {
      assert Clear(c.requests[i]) == c.requests[i];
      if i < f {
        assert InOrder(s.requests[i].request, s.requests[f].request);
      } else if f < i {
        assert InOrder(s.requests[f].request, s.requests[i].request);
      }
    }
  }

  // ----- events that leave links alone

  /** An event that cannot change who recovers from a cut-off fault. */
  ghost predicate Quiet(fault: Fault, was: Record, r: Record) {
    fault == ArtifactHeadReplay || r == was.(finished := true)
  }

  lemma PutSyncedKeepsInv(s: Probe, cleared: nat, i: nat, r: Record)
    requires Inv(s, cleared) && i < |s.requests|
    requires SameIdentity(s.requests[i], r) && Dated(s.sequence, r) && Quiet(s.fault, s.requests[i], r)
    ensures Inv(PutSynced(s, i, r), cleared)
  {
    var s' := PutSynced(s, i, r);
    PutSyncedKeeps(s, i, r);
    PutSyncedKeepsLinks(s, i, r);
    forall f | 0 <= f < |s.requests|
      ensures if s'.requests[f].request.faultInjected
              then LinkedExactly(s', cleared, s'.requests[f])
              else s'.requests[f].successfulTerminalSequence.None?
    {
      if !s'.requests[f].request.faultInjected {
      } else if f == i {
        TouchedStaysLinked(s, cleared, i, r);
      } else {
        OthersStayLinked(s, cleared, i, r, f);
      }
    }
  }

  lemma PutSyncedKeepsLinks(s: Probe, i: nat, r: Record)
    requires Links(s) && i < |s.requests| && SameIdentity(s.requests[i], r)
    ensures Links(PutSynced(s, i, r))
  {
    var s' := PutSynced(s, i, r);
    forall j | 0 <= j < |s.requests| ensures LinkOk(s'.sequence, s'.targetThreadId, s'.requests[j]) {
      assert LinkOk(s.sequence, s.targetThreadId, s.requests[j]);
    }
  }

  lemma TouchedStaysLinked(s: Probe, cleared: nat, i: nat, r: Record)
    requires Inv(s, cleared) && i < |s.requests|
    requires SameIdentity(s.requests[i], r) && Dated(s.sequence, r) && Quiet(s.fault, s.requests[i], r)
    requires r.request.faultInjected
    ensures var s' := PutSynced(s, i, r); LinkedExactly(s', cleared, s'.requests[i])
  {
    if !r.failed {
      TouchedOrdinaryStaysLinked(s, cleared, i, r);
    }
  }

  lemma OthersStayLinked(s: Probe, cleared: nat, i: nat, r: Record, f: nat)
    requires i < |s.requests| && f < |s.requests| && f != i
    requires s.requests[f].request.faultInjected && LinkedExactly(s, cleared, s.requests[f])
    requires SameIdentity(s.requests[i], r) && Quiet(s.fault, s.requests[i], r)
    ensures LinkedExactly(PutSynced(s, i, r), cleared, s.requests[f])
  {
    hide LinkedOnly, SomeRecovery, PutSynced, RecoversFrom, SameStanding;
    var s' := PutSynced(s, i, r);
    var fault := s.requests[f];
    PutSyncedStanding(s, i, r);
    if fault.failed {
      if s.fault == ArtifactGapClose {
        QuietKeepsRecoveries(s, i, r, fault);
      }
      SameRecoveries(s, s', cleared, fault);
    } else if fault.successfulTerminalSequence.Some? {
      var m := Max(cleared, fault.successfulTerminalSequence.value);
      SameTargets(s, s', m);
      SameLinks(s, s', fault.successfulTerminalSequence, TargetAfter(s.targetThreadId, m));
    }
    assert s'.targetThreadId == s.targetThreadId && s'.fault == s.fault by { StandingKeepsTarget(s, s'); }
  }

  lemma StandingKeepsTarget(s: Probe, s': Probe)
    requires SameStanding(s, s')
    ensures s'.targetThreadId == s.targetThreadId && s'.fault == s.fault
  {
  }

  lemma PutSyncedStanding(s: Probe, i: nat, r: Record)
    requires i < |s.requests| && SameIdentity(s.requests[i], r)
    ensures SameStanding(s, PutSynced(s, i, r))
  {
    hide SuccessfulFault;
  }

  lemma SameTargets(s: Probe, s': Probe, m: nat)
    requires SameStanding(s, s')
    ensures |s'.requests| == |s.requests|
    ensures forall j :: 0 <= j < |s.requests| ==>
              TargetAfter(s.targetThreadId, m).Holds(s.requests[j]) == TargetAfter(s.targetThreadId, m).Holds(s'.requests[j])
  {
  }

  /** In gap-close only finishing is quiet, and finishing does not bear on recovery. */
  lemma QuietKeepsRecoveries(s: Probe, i: nat, r: Record, fault: Record)
    requires i < |s.requests| && r == s.requests[i].(finished := true)
    ensures var s' := PutSynced(s, i, r);
            forall j :: 0 <= j < |s.requests| ==>
              RecoversFrom(s.targetThreadId, fault, s.requests[j]) == RecoversFrom(s.targetThreadId, fault, s'.requests[j])
  {
    hide SuccessfulFault;
  }

  ghost predicate SameStanding(s: Probe, s': Probe) {
    && SameRequests(s.requests, s'.requests)
    && s'.targetThreadId == s.targetThreadId && s'.fault == s.fault
    && forall i :: 0 <= i < |s.requests| ==>
         s'.requests[i].recoveryForTerminalSequence == s.requests[i].recoveryForTerminalSequence
  }

  lemma SameLinks(s: Probe, s': Probe, terminal: Option<nat>, q: Query)
    requires SameStanding(s, s')
    requires LinkedOnly(s.requests, terminal, q)
    requires forall j :: 0 <= j < |s.requests| ==> q.Holds(s.requests[j]) == q.Holds(s'.requests[j])
    ensures LinkedOnly(s'.requests, terminal, q)
  {
    forall i | 0 <= i < |s.requests|
      ensures s'.requests[i].recoveryForTerminalSequence == terminal <==> IsEarliest(s'.requests, q, i)
    {
      SameEarliest(s.requests, q, s'.requests, q, i);
    }
  }

  lemma SameRecoveries(s: Probe, s': Probe, cleared: nat, fault: Record)
    requires SameStanding(s, s')
    requires fault.failed && fault.request.faultInjected && LinkedExactly(s, cleared, fault)
    requires s.fault == ArtifactGapClose ==>
               forall j :: 0 <= j < |s.requests| ==>
                 RecoversFrom(s.targetThreadId, fault, s.requests[j]) == RecoversFrom(s.targetThreadId, fault, s'.requests[j])
    ensures LinkedExactly(s', cleared, fault)
  {
    if s.fault == ArtifactGapClose {
      assert SomeRecovery(s, fault) <==> SomeRecovery(s', fault) by {
        if SomeRecovery(s, fault) {
          var r :| 0 <= r < |s.requests| && RecoversFrom(s.targetThreadId, fault, s.requests[r]);
          assert RecoversFrom(s.targetThreadId, fault, s'.requests[r]);
        }
        if SomeRecovery(s', fault) {
          var r :| 0 <= r < |s'.requests| && RecoversFrom(s.targetThreadId, fault, s'.requests[r]);
          assert RecoversFrom(s.targetThreadId, fault, s.requests[r]);
        }
      }
      if fault.successfulTerminalSequence.Some? {
        SameLinks(s, s', fault.successfulTerminalSequence, Recovering(s.targetThreadId, fault));
      }
    }
  }

  lemma TouchedOrdinaryStaysLinked(s: Probe, cleared: nat, i: nat, r: Record)
    requires Inv(s, cleared) && i < |s.requests|
    requires SameIdentity(s.requests[i], r) && Dated(s.sequence, r)
    requires r.request.faultInjected && !r.failed
    ensures var s' := PutSynced(s, i, r); LinkedExactly(s', cleared, s'.requests[i])
  {
    var s' := PutSynced(s, i, r);
    var terminal := s'.requests[i].successfulTerminalSequence;
    if terminal.Some? {
      var q := TargetAfter(s.targetThreadId, Max(cleared, terminal.value));
      if s.requests[i].successfulTerminalSequence.Some? {
        assert LinkedExactly(s, cleared, s.requests[i]);
        SameLinks(s, s', terminal, q);
      } else {
        forall j | 0 <= j < |s.requests|
          ensures s'.requests[j].recoveryForTerminalSequence != terminal && !q.Holds(s'.requests[j])
        {
          assert LinkOk(s.sequence, s.targetThreadId, s.requests[j]);
          assert OnRecord(s.sequence, s.targetThreadId, s.requests[j].request);
        }
      }
    }
  }
}
