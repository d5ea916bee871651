/**
 * The end-to-end fault receipt probe: it watches browser requests in any order of events and
 * decides whether the one injected fault was consumed by Core and recovered from.
 *
 * This module holds the probe's state and the meaning of each operation as a function on it.
 */
module FaultReceiptProbe {
  import opened Options
  import opened Decimals
  import Strings

  datatype Fault = ArtifactGapClose | ArtifactHeadReplay {
    function Name(): string {
      match this
      case ArtifactGapClose => "artifact-gap-close"
      case ArtifactHeadReplay => "artifact-head-replay"
    }
  }

  /** Identity of a browser request object. */
  type RequestKey = nat

  /** What diagnostics keep of a receipt header. */
  datatype Receipt = Missing | Exact | Unexpected

  /** What registration fixes about a request. */
  datatype Request = Request(
    key: RequestKey,
    faultInjected: bool,
    requestSequence: nat,
    streamOffset: Option<string>,
    threadId: string)

  /** A registered request with everything that later events change. */
  datatype Record = Record(
    request: Request,
    failed: bool,
    failureSequence: Option<nat>,
    failureMatchesIntentionalClose: bool,
    finished: bool,
    receipt: Receipt,
    receiptMatchesFault: bool,
    responseHeadersPending: bool,
    status: Option<int>,
    recoveryForTerminalSequence: Option<nat>,
    successfulTerminalSequence: Option<nat>)

  /** `requests` lists the records in the order in which the requests were registered. */
  datatype Probe = Probe(
    fault: Fault,
    requests: seq<Record>,
    faultInjectionIssued: bool,
    inFlightInjectedRequest: Option<RequestKey>,
    sequence: nat,
    targetThreadId: Option<string>)

  /**
   * What the probe reads from a browser URL: whether it already carries the fault parameter, the
   * decoded Thread segment when the path is this probe's Agent endpoint, and the raw offset.
   */
  datatype AgentUrl = AgentUrl(
    hasFaultParameter: bool,
    threadSegment: Option<string>,
    lastStreamOffset: Option<string>)

  datatype BeginResult = Rejected | Registered(injected: bool)

  // ----- stream offsets

  function SemanticStreamOffset(value: Option<string>): Option<string> {
    if value.Some? && IsDecimal(value.value) then value else None
  }

  predicate StrictlyAdvances(before: Option<string>, after: Option<string>) {
    && before.Some? && after.Some?
    && IsDecimal(before.value) && IsDecimal(after.value)
    && DecimalValue(after.value) > DecimalValue(before.value)
  }

  // ----- terminal conditions

  predicate OrdinaryTerminal(r: Record) {
    && r.request.faultInjected && !r.failed && r.finished
    && !r.responseHeadersPending && r.status == Some(200) && r.receiptMatchesFault
  }

  /** A deliberately truncated stream that carried the exact receipt. */
  predicate AbortedFault(r: Record) {
    && r.request.faultInjected && r.failed && r.failureMatchesIntentionalClose && !r.finished
    && !r.responseHeadersPending && r.status == Some(200) && r.receiptMatchesFault
  }

  predicate SuccessfulFault(fault: Fault, r: Record) {
    || OrdinaryTerminal(r)
    || (fault == ArtifactGapClose && AbortedFault(r) && r.successfulTerminalSequence.Some?)
  }

  /** `r` proves that the target Thread moved on after `failed` was cut off. */
  predicate RecoversFrom(target: Option<string>, failed: Record, r: Record) {
    && !r.request.faultInjected && !r.failed && !r.responseHeadersPending && r.status == Some(200)
    && Some(r.request.threadId) == target
    && failed.failureSequence.Some? && r.request.requestSequence > failed.failureSequence.value
    && StrictlyAdvances(failed.request.streamOffset, r.request.streamOffset)
  }

  /** A request on the target Thread begun after sequence number `m`. */
  predicate BegunAfter(target: Option<string>, m: nat, r: Record) {
    Some(r.request.threadId) == target && r.request.requestSequence > m
  }

  // ----- searching the registered requests

  datatype Query =
    | WithKey(key: RequestKey)
    | Injected
    | ReceiptedInjected
    | Successful(fault: Fault)
    | ReconcilableFault
    | Recovering(target: Option<string>, failed: Record)
    | TargetAfter(target: Option<string>, m: nat)
  {
    predicate Holds(r: Record) {
      match this
      case WithKey(key) => r.request.key == key
      case Injected => r.request.faultInjected
      case ReceiptedInjected => r.request.faultInjected && r.receiptMatchesFault
      case Successful(fault) => SuccessfulFault(fault, r)
      case ReconcilableFault => AbortedFault(r) && r.failureSequence.Some?
      case Recovering(target, failed) => RecoversFrom(target, failed, r)
      case TargetAfter(target, m) => BegunAfter(target, m, r)
    }
  }

  function Count(rs: seq<Record>, q: Query): (n: nat)
    ensures n == 0 <==> forall i :: 0 <= i < |rs| ==> !q.Holds(rs[i])
  {
    if rs == [] then 0
    else Count(rs[..|rs| - 1], q) + (if q.Holds(rs[|rs| - 1]) then 1 else 0)
  }

  function First(rs: seq<Record>, q: Query): (n: nat)
    ensures n <= |rs| && (n < |rs| ==> q.Holds(rs[n]))
    ensures forall i :: 0 <= i < n ==> !q.Holds(rs[i])
  {
    if rs == [] then 0
    else
      var n := First(rs[..|rs| - 1], q);
      if n < |rs| - 1 || q.Holds(rs[|rs| - 1]) then n else |rs|
  }

  predicate IsEarliest(rs: seq<Record>, q: Query, i: nat) {
    && i < |rs| && q.Holds(rs[i])
    && forall j :: 0 <= j < |rs| && q.Holds(rs[j]) ==>
         rs[i].request.requestSequence <= rs[j].request.requestSequence
  }

  /** The first record in ascending `requestSequence` order that answers `q`. */
  function Earliest(rs: seq<Record>, q: Query): (n: nat)
    ensures n <= |rs|
    ensures n < |rs| ==> IsEarliest(rs, q, n)
    ensures n == |rs| ==> forall i :: 0 <= i < |rs| ==> !q.Holds(rs[i])
  {
    if rs == [] then 0
    else
      var last := |rs| - 1;
      var n := Earliest(rs[..last], q);
      if n == last then (if q.Holds(rs[last]) then last else |rs|)
      else if q.Holds(rs[last]) && rs[last].request.requestSequence < rs[n].request.requestSequence then last
      else n
  }

  predicate IsRegistered(s: Probe, key: RequestKey) {
    First(s.requests, WithKey(key)) < |s.requests|
  }

  // ----- what callers read

  function SingleSuccessfulTerminalSequence(s: Probe): Option<nat> {
    if Count(s.requests, Successful(s.fault)) == 1
    then
      var n := First(s.requests, Successful(s.fault));
      if n < |s.requests| then s.requests[n].successfulTerminalSequence else None
    else None
  }

  predicate ReceiptObserved(s: Probe) {
    && Count(s.requests, Injected) == 1
    && Count(s.requests, ReceiptedInjected) == 1
    && Count(s.requests, Successful(s.fault)) == 1
  }

  predicate IsRecoveryRequest(s: Probe, key: RequestKey) {
    var n := First(s.requests, WithKey(key));
    var terminal := SingleSuccessfulTerminalSequence(s);
    && n < |s.requests|
    && terminal.Some?
    && s.requests[n].recoveryForTerminalSequence == terminal
  }

  // ----- steps

  function Initial(fault: Fault): Probe {
    Probe(fault, [], false, None, 0, None)
  }

  predicate IsThreadId(t: string) { 0 < |t| <= 200 }

  function BindTargetThread(s: Probe, threadId: string): (s': Probe)
  {
    var target := Strings.Trim(threadId);
    if !IsThreadId(target) || (s.targetThreadId.Some? && s.targetThreadId.value != target) then s
    else s.(targetThreadId := Some(target))
  }

  function RecoveryAtBegin(s: Probe, matchesTarget: bool, injected: bool): Option<nat> {
    var terminal := SingleSuccessfulTerminalSequence(s);
    if && !injected && matchesTarget && terminal.Some?
       && forall i :: 0 <= i < |s.requests| ==> s.requests[i].recoveryForTerminalSequence != terminal
    then terminal
    else None
  }

  predicate Accepts(s: Probe, key: RequestKey, url: AgentUrl) {
    && !url.hasFaultParameter
    && !IsRegistered(s, key)
    && url.threadSegment.Some?
    && IsThreadId(Strings.Trim(url.threadSegment.value))
  }

  predicate Injects(s: Probe, threadId: string) {
    !s.faultInjectionIssued && s.inFlightInjectedRequest == None && s.targetThreadId == Some(threadId)
  }

  function NewRecord(s: Probe, key: RequestKey, url: AgentUrl, threadId: string): Record {
    var injected := Injects(s, threadId);
    Record(Request(key, injected, s.sequence + 1, SemanticStreamOffset(url.lastStreamOffset), threadId),
           false, None, false, false, Missing, false, false, None,
           RecoveryAtBegin(s, s.targetThreadId == Some(threadId), injected), None)
  }

  function BeginRequest(s: Probe, key: RequestKey, url: AgentUrl): (Probe, BeginResult) {
    if !Accepts(s, key, url) then (s, Rejected)
    else
      var r := NewRecord(s, key, url, Strings.Trim(url.threadSegment.value));
      var next := s.(requests := s.requests + [r], sequence := s.sequence + 1);
      if r.request.faultInjected
      then (next.(faultInjectionIssued := true, inFlightInjectedRequest := Some(key)), Registered(true))
      else (next, Registered(false))
  }

  /** Replaces record `i` by `r`, giving it or taking from it the terminal sequence it deserves. */
  function PutSynced(s: Probe, i: nat, r: Record): (s': Probe)
    requires i < |s.requests|
    ensures |s'.requests| == |s.requests|
  {
    if !SuccessfulFault(s.fault, r)
    then s.(requests := s.requests[i := r.(successfulTerminalSequence := None)])
    else if r.successfulTerminalSequence.Some? then s.(requests := s.requests[i := r])
    else s.(requests := s.requests[i := r.(successfulTerminalSequence := Some(s.sequence + 1))],
            sequence := s.sequence + 1)
  }

  function Clear(r: Record): Record {
    r.(successfulTerminalSequence := if r.failed then None else r.successfulTerminalSequence,
       recoveryForTerminalSequence := None)
  }

  function Cleared(rs: seq<Record>): (cs: seq<Record>)
    ensures |cs| == |rs|
    ensures forall i :: 0 <= i < |rs| ==> cs[i] == Clear(rs[i])
  {
    if rs == [] then [] else Cleared(rs[..|rs| - 1]) + [Clear(rs[|rs| - 1])]
  }

  function Reconcile(s: Probe): (s': Probe)
    ensures |s'.requests| == |s.requests| && s'.fault == s.fault
  {
    if s.fault == ArtifactGapClose then Relink(s.(requests := Cleared(s.requests))) else s
  }

  function Relink(s: Probe): (s': Probe)
    ensures |s'.requests| == |s.requests| && s'.fault == s.fault
  {
    var f := First(s.requests, ReconcilableFault);
    if || Count(s.requests, ReconcilableFault) != 1
       || f == |s.requests|
       || s.requests[f].failureSequence == Some(0)
    then s
    else Link(s, f, Earliest(s.requests, Recovering(s.targetThreadId, s.requests[f])))
  }

  function Link(s: Probe, f: nat, r: nat): Probe
    requires f < |s.requests|
  {
    if r >= |s.requests| then s
    else
      var known := s.requests[f].successfulTerminalSequence;
      var n := if known.Some? then s.sequence else s.sequence + 1;
      var terminal := if known.Some? then known else Some(n);
      var rs := s.requests[f := s.requests[f].(successfulTerminalSequence := terminal)];
      s.(requests := rs[r := rs[r].(recoveryForTerminalSequence := terminal)], sequence := n)
  }

  /** The common part of every event about record `i`, which becomes `r`. */
  function Touch(s: Probe, i: nat, r: Record): (s': Probe)
    requires i < |s.requests|
    ensures |s'.requests| == |s.requests| && s'.fault == s.fault
  {
    Reconcile(PutSynced(s, i, r))
  }

  function ReleaseIfTerminal(s: Probe, i: nat): (s': Probe)
    requires i < |s.requests|
    ensures s' == s.(inFlightInjectedRequest := s'.inFlightInjectedRequest)
  {
    var r := s.requests[i];
    if && s.inFlightInjectedRequest == Some(r.request.key)
       && (r.failed || (r.finished && !r.responseHeadersPending))
    then s.(inFlightInjectedRequest := None)
    else s
  }

  function AfterFailure(s: Probe, r: Record, errorText: string): Record {
    r.(failed := true, failureSequence := Some(s.sequence + 1),
       failureMatchesIntentionalClose := errorText == "net::ERR_ABORTED")
  }

  function RecordFailure(s: Probe, key: RequestKey, errorText: string): Probe {
    var i := First(s.requests, WithKey(key));
    if i == |s.requests| then s
    else
      var r := AfterFailure(s, s.requests[i], errorText);
      ReleaseIfTerminal(Touch(s.(sequence := s.sequence + 1), i, r), i)
  }

  function RecordFinished(s: Probe, key: RequestKey): Probe {
    var i := First(s.requests, WithKey(key));
    if i == |s.requests| then s
    else ReleaseIfTerminal(PutSynced(s, i, s.requests[i].(finished := true)), i)
  }

  function RecordResponseStarted(s: Probe, key: RequestKey, status: int): Probe {
    var i := First(s.requests, WithKey(key));
    if i == |s.requests| then s
    else Touch(s, i, s.requests[i].(responseHeadersPending := true, status := Some(status)))
  }

  function AfterResponse(fault: Fault, r: Record, status: int, receipt: Option<string>): Record {
    r.(responseHeadersPending := false, status := Some(status),
       receipt := if receipt.None? then Missing
                  else if receipt.value == fault.Name() then Exact
                  else Unexpected,
       receiptMatchesFault := receipt == Some(fault.Name()))
  }

  function RecordResponse(s: Probe, key: RequestKey, status: int, receipt: Option<string>): Probe {
    var i := First(s.requests, WithKey(key));
    if i == |s.requests| then s
    else ReleaseIfTerminal(Touch(s, i, AfterResponse(s.fault, s.requests[i], status, receipt)), i)
  }

  // ----- runs

  datatype Event =
    | BindTarget(threadId: string)
    | Begin(key: RequestKey, url: AgentUrl)
    | ResponseStarted(key: RequestKey, status: int)
    | Response(key: RequestKey, status: int, receipt: Option<string>)
    | Finished(key: RequestKey)
    | Failure(key: RequestKey, errorText: string)

  function Step(s: Probe, e: Event): Probe {
    match e
    case BindTarget(threadId) => BindTargetThread(s, threadId)
    case Begin(key, url) => BeginRequest(s, key, url).0
    case ResponseStarted(key, status) => RecordResponseStarted(s, key, status)
    case Response(key, status, receipt) => RecordResponse(s, key, status, receipt)
    case Finished(key) => RecordFinished(s, key)
    case Failure(key, errorText) => RecordFailure(s, key, errorText)
  }

  function Run(fault: Fault, es: seq<Event>): Probe {
    if es == [] then Initial(fault) else Step(Run(fault, es[..|es| - 1]), es[|es| - 1])
  }
}
