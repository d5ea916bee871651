/**
 * The probe as the object that the browser hooks call. Every method is proved to do to the
 * object's fields exactly what the functions of FaultReceiptProbe do to a state.
 */
module ProbeObject {
  import opened Options
  import opened FaultReceiptProbe
  import ProbeEvents
  import Strings

  lemma CountStep(rs: seq<Record>, q: Query, i: nat)
    requires i < |rs|
    ensures Count(rs[..i + 1], q) == Count(rs[..i], q) + (if q.Holds(rs[i]) then 1 else 0)
  {
    assert rs[..i + 1][..i] == rs[..i];
  }

  lemma EarliestStep(rs: seq<Record>, q: Query, i: nat)
    requires i < |rs|
    ensures var n := Earliest(rs[..i], q);
            Earliest(rs[..i + 1], q) ==
              if n == i then (if q.Holds(rs[i]) then i else i + 1)
              else if q.Holds(rs[i]) && rs[i].request.requestSequence < rs[n].request.requestSequence then i
              else n
  {
    assert rs[..i + 1][..i] == rs[..i];
  }

  class AgentFaultReceiptProbe {
    const fault: Fault
    var requests: seq<Record>
    var faultInjectionIssued: bool
    var inFlightInjectedRequest: Option<RequestKey>
    var sequence: nat
    var targetThreadId: Option<string>

    ghost function State(): Probe
      reads this
    {
      Probe(fault, requests, faultInjectionIssued, inFlightInjectedRequest, sequence, targetThreadId)
    }

    constructor (fault: Fault)
      ensures State() == Initial(fault)
    {
      this.fault := fault;
      requests, faultInjectionIssued, inFlightInjectedRequest, sequence, targetThreadId := [], false, None, 0, None;
    }

    method Find(q: Query) returns (n: nat)
      ensures n == First(requests, q)
    {
      n := 0;
      while n < |requests| && !q.Holds(requests[n])
        invariant n <= |requests|
        invariant forall i :: 0 <= i < n ==> !q.Holds(requests[i])
      {
        n := n + 1;
      }
    }

    method CountOf(q: Query) returns (n: nat)
      ensures n == Count(requests, q)
    {
      n := 0;
      for i := 0 to |requests|
        invariant n == Count(requests[..i], q)
      {
        CountStep(requests, q, i);
        if q.Holds(requests[i]) {
          n := n + 1;
        }
      }
      assert requests[..|requests|] == requests;
    }

    /** Position of the smallest request sequence among the matches, as the sorted list's head. */
    method EarliestOf(q: Query) returns (n: nat)
      ensures n == Earliest(requests, q)
    {
      n := 0;
      for i := 0 to |requests|
        invariant n == Earliest(requests[..i], q)
      {
        EarliestStep(requests, q, i);
        if n == i {
          n := if q.Holds(requests[i]) then i else i + 1;
        } else if q.Holds(requests[i]) && requests[i].request.requestSequence < requests[n].request.requestSequence {
          n := i;
        }
      }
      assert requests[..|requests|] == requests;
    }

    method ReceiptObserved() returns (observed: bool)
      ensures observed == FaultReceiptProbe.ReceiptObserved(State())
    {
      var injected := CountOf(Injected);
      var receipted := CountOf(ReceiptedInjected);
      var applied := CountOf(Successful(fault));
      observed := injected == 1 && receipted == 1 && applied == 1;
    }

    method SingleSuccessfulTerminalSequence() returns (terminal: Option<nat>)
      ensures terminal == FaultReceiptProbe.SingleSuccessfulTerminalSequence(State())
    {
      var successful := CountOf(Successful(fault));
      var n := Find(Successful(fault));
      terminal := if successful == 1 && n < |requests| then requests[n].successfulTerminalSequence else None;
    }

    method IsRecoveryRequest(key: RequestKey) returns (recovery: bool)
      ensures recovery == FaultReceiptProbe.IsRecoveryRequest(State(), key)
    {
      var n := Find(WithKey(key));
      var terminal := SingleSuccessfulTerminalSequence();
      recovery := n < |requests| && terminal.Some? && requests[n].recoveryForTerminalSequence == terminal;
    }

    method BindTargetThread(threadId: string) returns (bound: bool)
      modifies this
      ensures State() == FaultReceiptProbe.BindTargetThread(old(State()), threadId)
      ensures bound <==> State().targetThreadId == Some(Strings.Trim(threadId)) && IsThreadId(Strings.Trim(threadId))
    {
      var target := Strings.Trim(threadId);
      if !IsThreadId(target) || (targetThreadId.Some? && targetThreadId.value != target) {
        return false;
      }
      targetThreadId := Some(target);
      return true;
    }

    method BeginRequest(key: RequestKey, url: AgentUrl) returns (result: BeginResult)
      modifies this
      ensures (State(), result) == FaultReceiptProbe.BeginRequest(old(State()), key, url)
    {
      hide Count, First, Strings.Trim;
      var known := Find(WithKey(key));
      if url.hasFaultParameter || known < |requests| || url.threadSegment.None? {
        return Rejected;
      }
      var threadId := Strings.Trim(url.threadSegment.value);
      if !IsThreadId(threadId) {
        return Rejected;
      }
      var terminal := SingleSuccessfulTerminalSequence();
      var matchesTarget := targetThreadId == Some(threadId);
      var injected := !faultInjectionIssued && inFlightInjectedRequest == None && matchesTarget;
      var link := None;
      if !injected && matchesTarget && terminal.Some? {
        var taken := false;
        for i := 0 to |requests|
          invariant taken <==> exists j :: 0 <= j < i && requests[j].recoveryForTerminalSequence == terminal
        {
          taken := taken || requests[i].recoveryForTerminalSequence == terminal;
        }
        link := if taken then None else terminal;
      }
      sequence := sequence + 1;
      var request := Request(key, injected, sequence, SemanticStreamOffset(url.lastStreamOffset), threadId);
      var r := Record(request, false, None, false, false, Missing, false, false, None, link, None);
      assert r == NewRecord(old(State()), key, url, threadId);
      requests := requests + [r];
      if injected {
        faultInjectionIssued, inFlightInjectedRequest := true, Some(key);
      }
      result := Registered(injected);
    }

    method SyncSuccessfulTerminalSequence(i: nat)
      requires i < |requests|
      modifies this`requests, this`sequence
      ensures State() == PutSynced(old(State()), i, old(requests[i]))
    {
      var r := requests[i];
      if !SuccessfulFault(fault, r) {
        requests := requests[i := r.(successfulTerminalSequence := None)];
      } else if r.successfulTerminalSequence.None? {
        sequence := sequence + 1;
        requests := requests[i := r.(successfulTerminalSequence := Some(sequence))];
      }
    }

    method ClearLinks()
      modifies this`requests
      ensures requests == Cleared(old(requests))
    {
      for i := 0 to |requests|
        invariant |requests| == |old(requests)|
        invariant forall j :: 0 <= j < i ==> requests[j] == Clear(old(requests)[j])
        invariant forall j :: i <= j < |requests| ==> requests[j] == old(requests)[j]
      {
        requests := requests[i := Clear(requests[i])];
      }
    }

    method ReconcileGapCloseRecoveries()
      modifies this`requests, this`sequence
      ensures State() == Reconcile(old(State()))
    {
      hide Count, First, Earliest, Cleared;
      if fault != ArtifactGapClose {
        return;
      }
      ClearLinks();
      var faults := CountOf(ReconcilableFault);
      var f := Find(ReconcilableFault);
      if faults != 1 || f == |requests| || requests[f].failureSequence == Some(0) {
        return;
      }
      var r := EarliestOf(Recovering(targetThreadId, requests[f]));
      if r >= |requests| {
        return;
      }
      var terminal := requests[f].successfulTerminalSequence;
      if terminal.None? {
        sequence := sequence + 1;
        terminal := Some(sequence);
      }
      requests := requests[f := requests[f].(successfulTerminalSequence := terminal)];
      requests := requests[r := requests[r].(recoveryForTerminalSequence := terminal)];
    }

    method ReleaseIfTerminal(i: nat)
      requires i < |requests|
      modifies this`inFlightInjectedRequest
      ensures State() == FaultReceiptProbe.ReleaseIfTerminal(old(State()), i)
    {
      var r := requests[i];
      if inFlightInjectedRequest != Some(r.request.key) {
        return;
      }
      if r.failed || (r.finished && !r.responseHeadersPending) {
        inFlightInjectedRequest := None;
      }
    }

    /** Stores the changed record, settles its terminal sequence and reconciles. */
    method Touch(i: nat, r: Record)
      requires i < |requests|
      modifies this`requests, this`sequence
      ensures State() == FaultReceiptProbe.Touch(old(State()), i, r)
    {
      hide Reconcile;
      requests := requests[i := r];
      SyncSuccessfulTerminalSequence(i);
      assert State() == PutSynced(old(State()), i, r);
      ReconcileGapCloseRecoveries();
    }

    method RecordFailure(key: RequestKey, errorText: string)
      modifies this
      ensures State() == FaultReceiptProbe.RecordFailure(old(State()), key, errorText)
    {
      hide FaultReceiptProbe.Touch, First;
      var i := Find(WithKey(key));
      if i == |requests| {
        return;
      }
      sequence := sequence + 1;
      Touch(i, requests[i].(failed := true, failureSequence := Some(sequence),
                            failureMatchesIntentionalClose := errorText == "net::ERR_ABORTED"));
      ReleaseIfTerminal(i);
    }

    method RecordFinished(key: RequestKey)
      modifies this
      ensures State() == FaultReceiptProbe.RecordFinished(old(State()), key)
    {
      hide First;
      var i := Find(WithKey(key));
      if i == |requests| {
        return;
      }
      requests := requests[i := requests[i].(finished := true)];
      SyncSuccessfulTerminalSequence(i);
      assert State() == PutSynced(old(State()), i, old(requests[i]).(finished := true));
      ReleaseIfTerminal(i);
    }

    method RecordResponseStarted(key: RequestKey, status: int)
      modifies this
      ensures State() == FaultReceiptProbe.RecordResponseStarted(old(State()), key, status)
    {
      hide FaultReceiptProbe.Touch, First;
      var i := Find(WithKey(key));
      if i == |requests| {
        return;
      }
      Touch(i, requests[i].(responseHeadersPending := true, status := Some(status)));
    }

    method RecordResponse(key: RequestKey, status: int, receipt: Option<string>)
      modifies this
      ensures State() == FaultReceiptProbe.RecordResponse(old(State()), key, status, receipt)
    {
      hide FaultReceiptProbe.Touch, First;
      var i := Find(WithKey(key));
      if i == |requests| {
        return;
      }
      var shown := if receipt.None? then Missing else if receipt.value == fault.Name() then Exact else Unexpected;
      Touch(i, requests[i].(responseHeadersPending := false, status := Some(status), receipt := shown,
                            receiptMatchesFault := receipt == Some(fault.Name())));
      ReleaseIfTerminal(i);
    }

    method Handle(e: Event)
      modifies this
      ensures State() == Step(old(State()), e)
    {
      hide FaultReceiptProbe.BeginRequest, FaultReceiptProbe.RecordFailure, FaultReceiptProbe.RecordFinished,
        FaultReceiptProbe.RecordResponse, FaultReceiptProbe.RecordResponseStarted, FaultReceiptProbe.BindTargetThread;
      match e
      case BindTarget(threadId) => var _ := BindTargetThread(threadId);
      case Begin(key, url) => var _ := BeginRequest(key, url);
      case ResponseStarted(key, status) => RecordResponseStarted(key, status);
      case Response(key, status, receipt) => RecordResponse(key, status, receipt);
      case Finished(key) => RecordFinished(key);
      case Failure(key, errorText) => RecordFailure(key, errorText);
    }
  }

  /** A whole end-to-end session: what the object answers is what the events prove. */
  method Watch(fault: Fault, es: seq<Event>) returns (observed: bool)
    ensures observed <==> exists b: nat :: ProbeEvents.Consumes(fault, es, b)
  {
    hide Step, ProbeEvents.Consumes, FaultReceiptProbe.ReceiptObserved;
    var probe := new AgentFaultReceiptProbe(fault);
    for i := 0 to |es|
      invariant probe.State() == Run(fault, es[..i])
    {
      assert es[..i + 1][..i] == es[..i];
      probe.Handle(es[i]);
    }
    assert es[..|es|] == es;
    observed := probe.ReceiptObserved();
    ProbeEvents.ReceiptObservedIff(fault, es);
  }
}
