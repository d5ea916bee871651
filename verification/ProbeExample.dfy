/**
 * A run that shows why "only the first target request begun after fault success is recovery"
 * needs its condition: that request loses the title as soon as its own response arrives.
 */
module ProbeExample {
  import opened Options
  import opened FaultReceiptProbe
  import opened ProbeInvariant
  import opened ProbeRuns
  import Strings

  lemma RunAppend(fault: Fault, es: seq<Event>, e: Event)
    ensures Run(fault, es + [e]) == Step(Run(fault, es), e)
  {
    hide Step;
    assert (es + [e])[..|es|] == es;
  }

  function TargetUrl(): AgentUrl { AgentUrl(false, Some("t"), None) }

  function RecoveryBegun(): seq<Event> {
    [BindTarget("t")] + [Begin(0, TargetUrl())] + [Response(0, 200, Some("artifact-gap-close"))] + [Finished(0)]
    + [Begin(1, TargetUrl())]
  }

  /** State after registering the injected request, with what its record has become. */
  function WithFault(r: Record, inFlight: Option<RequestKey>, sequence: nat): Probe {
    Probe(ArtifactGapClose, [r], true, inFlight, sequence, Some("t"))
  }

  function FreshFault(): Record {
    Record(Request(0, true, 1, None, "t"), false, None, false, false, Missing, false, false, None, None, None)
  }

  function ReceiptedFault(): Record {
    FreshFault().(status := Some(200), receipt := Exact, receiptMatchesFault := true)
  }

  function FinishedFault(): Record {
    ReceiptedFault().(finished := true, successfulTerminalSequence := Some(2))
  }

  function FirstAfter(): Record {
    Record(Request(1, false, 3, None, "t"), false, None, false, false, Missing, false, false, None, Some(2), None)
  }

  function Begun(): Probe {
    Probe(ArtifactGapClose, [FinishedFault(), FirstAfter()], true, None, 3, Some("t"))
  }

  lemma Trimmed(s: string)
    requires s == "t"
    ensures Strings.Trim(s) == s
  {
    assert !Strings.IsSpace(s[0]);
  }

  lemma Bound(s: Probe, target: string)
    requires s == Initial(ArtifactGapClose) && target == "t"
    ensures BindTargetThread(s, target) == s.(targetThreadId := Some("t"))
  {
    hide Strings.Trim;
    Trimmed("t");
  }

  lemma FirstIsInjected(s: Probe, url: AgentUrl)
    requires s == Initial(ArtifactGapClose).(targetThreadId := Some("t")) && url == TargetUrl()
    ensures BeginRequest(s, 0, url).0 == WithFault(FreshFault(), Some(0), 1)
  {
    hide Strings.Trim;
    Trimmed("t");
  }

  lemma Receipted(s: Probe, receipt: Option<string>)
    requires s == WithFault(FreshFault(), Some(0), 1) && receipt == Some("artifact-gap-close")
    ensures RecordResponse(s, 0, 200, receipt) == WithFault(ReceiptedFault(), Some(0), 1)
  {
    var r := AfterResponse(ArtifactGapClose, FreshFault(), 200, receipt);
    assert r == ReceiptedFault();
    assert First(s.requests, WithKey(0)) == 0;
    assert PutSynced(s, 0, r).requests == [r];
    assert Cleared([r]) == [r];
    assert !ReconcilableFault.Holds([r][0]);
    assert Touch(s, 0, r) == WithFault(ReceiptedFault(), Some(0), 1);
  }

  lemma Succeeded(s: Probe)
    requires s == WithFault(ReceiptedFault(), Some(0), 1)
    ensures RecordFinished(s, 0) == WithFault(FinishedFault(), None, 2)
  {
  }

  lemma FollowUpIsLinked(s: Probe, url: AgentUrl)
    requires s == WithFault(FinishedFault(), None, 2) && url == TargetUrl()
    ensures BeginRequest(s, 1, url).0 == Begun()
  {
    hide Strings.Trim;
    Trimmed("t");
    assert Successful(ArtifactGapClose).Holds(s.requests[0]);
    FirstOfAtMostOne(s.requests, Successful(ArtifactGapClose), 0);
    assert SingleSuccessfulTerminalSequence(s) == Some(2);
    assert RecoveryAtBegin(s, true, false) == Some(2);
  }

  function Answered(): Probe {
    Begun().(requests := [FinishedFault(), FirstAfter().(status := Some(200), recoveryForTerminalSequence := None)])
  }

  lemma AnswerWipesTheLink(s: Probe)
    requires s == Begun()
    ensures RecordResponse(s, 1, 200, None) == Answered()
  {
    var r := AfterResponse(ArtifactGapClose, FirstAfter(), 200, None);
    var put := PutSynced(s, 1, r);
    assert First(s.requests, WithKey(1)) == 1;
    assert put.requests == [FinishedFault(), r];
    assert Cleared(put.requests) == Answered().requests;
    assert forall i :: 0 <= i < 2 ==> !ReconcilableFault.Holds(Answered().requests[i]);
    assert Touch(s, 1, r) == Answered();
  }

  lemma RunToBegun()
    ensures Run(ArtifactGapClose, RecoveryBegun()) == Begun()
  {
    hide Run, BindTargetThread, BeginRequest, RecordResponse, RecordFinished;
    var f, url, receipt := ArtifactGapClose, TargetUrl(), Some("artifact-gap-close");
    var s0 := Initial(f);
    assert Run(f, []) == s0 by { RunOfNothing(f); }
    RunAppend(f, [], BindTarget("t"));
    assert [] + [BindTarget("t")] == [BindTarget("t")];
    Bound(s0, "t");
    RunAppend(f, [BindTarget("t")], Begin(0, url));
    FirstIsInjected(s0.(targetThreadId := Some("t")), url);
    RunAppend(f, [BindTarget("t")] + [Begin(0, url)], Response(0, 200, receipt));
    Receipted(WithFault(FreshFault(), Some(0), 1), receipt);
    RunAppend(f, [BindTarget("t")] + [Begin(0, url)] + [Response(0, 200, receipt)], Finished(0));
    Succeeded(WithFault(ReceiptedFault(), Some(0), 1));
    RunAppend(f, [BindTarget("t")] + [Begin(0, url)] + [Response(0, 200, receipt)] + [Finished(0)], Begin(1, url));
    FollowUpIsLinked(WithFault(FinishedFault(), None, 2), url);
  }

  lemma RunOfNothing(fault: Fault)
    ensures Run(fault, []) == Initial(fault)
  {
  }

  lemma TerminalOf(s: Probe)
    requires |s.requests| == 2 && s.fault == ArtifactGapClose
    requires s.requests[0] == FinishedFault() && !s.requests[1].request.faultInjected
    ensures SingleSuccessfulTerminalSequence(s) == Some(2)
  {
    assert Successful(ArtifactGapClose).Holds(s.requests[0]);
    FirstOfAtMostOne(s.requests, Successful(ArtifactGapClose), 0);
  }

  lemma ResponseErasesRecovery()
    ensures IsRecoveryRequest(Run(ArtifactGapClose, RecoveryBegun()), 1)
    ensures var s := Run(ArtifactGapClose, RecoveryBegun() + [Response(1, 200, None)]);
            && |s.requests| == 2
            && OrdinaryTerminal(s.requests[0])
            && s.requests[0].successfulTerminalSequence == Some(2)
            && IsEarliest(s.requests, TargetAfter(s.targetThreadId, 2), 1)
            && !IsRecoveryRequest(s, 1)
  {
    hide Run, RecordResponse, SingleSuccessfulTerminalSequence;
    RunToBegun();
    RunAppend(ArtifactGapClose, RecoveryBegun(), Response(1, 200, None));
    AnswerWipesTheLink(Begun());
    TerminalOf(Begun());
    TerminalOf(Answered());
    assert WithKey(1).Holds(Begun().requests[1]) && WithKey(1).Holds(Answered().requests[1]);
    assert First(Begun().requests, WithKey(1)) == 1 && First(Answered().requests, WithKey(1)) == 1;
  }
}
