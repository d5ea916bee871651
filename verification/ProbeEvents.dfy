/**
 * When the receipt counts as observed, told by the events of a run alone: no counter, record or link
 * is mentioned. Also, requests in the order of the events that registered them.
 */
module ProbeEvents {
  import opened Options
  import opened Decimals
  import opened FaultReceiptProbe
  import opened ProbeInvariant
  import opened ProbeRuns
  import opened ProbeTheorems
  import opened ProbeTraces
  import opened ProbeInjection
  import Strings

  // ----- the receipt

  ghost predicate AnsweredExactly(fault: Fault, es: seq<Event>, b: nat)
    requires b < |es| && es[b].Begin?
  {
    exists p: nat :: AnsweredOk(es, b, es[b].key, p)
      && es[p].receipt == Some(if fault == ArtifactGapClose then "artifact-gap-close" else "artifact-head-replay")
  }

  /** `0`, or digits that do not start with `0`. */
  ghost predicate IsOffset(s: string) {
    s == "0" || (s != "" && '1' <= s[0] <= '9' && forall i :: 0 <= i < |s| ==> '0' <= s[i] <= '9')
  }

  /** Both offsets are given and readable, and the later one is a larger numeral. */
  ghost predicate Advances(before: Option<string>, after: Option<string>) {
    && before.Some? && after.Some? && IsOffset(before.value) && IsOffset(after.value)
    && NumeralLess(before.value, after.value)
  }

  lemma OffsetIff(s: string)
    ensures IsDecimal(s) <==> IsOffset(s)
  {
    if IsDecimal(s) {
      assert IsDigit(s[0]);
      assert forall i :: 0 <= i < |s| ==> IsDigit(s[i]);
    }
    if IsOffset(s) {
      assert forall i :: 0 <= i < |s| ==> IsDigit(s[i]);
    }
  }

  /** What the probe computes with values of any size is the order of the offset texts. */
  lemma AdvancesIff(before: Option<string>, after: Option<string>)
    ensures StrictlyAdvances(SemanticStreamOffset(before), SemanticStreamOffset(after)) <==> Advances(before, after)
  {
    hide IsDecimal, IsOffset, NumeralLess, DecimalValue;
    if before.Some? {
      OffsetIff(before.value);
    }
    if after.Some? {
      OffsetIff(after.value);
    }
    if before.Some? && after.Some? && IsDecimal(before.value) && IsDecimal(after.value) {
      ValueOrder(before.value, after.value);
    }
  }

  /** Event `x` cut the request of event `b` off on purpose, and it never finished. */
  ghost predicate IsCutOff(es: seq<Event>, b: nat, x: nat)
    requires b < |es| && es[b].Begin?
  {
    LastFailure(es, b, es[b].key, x) && es[x].errorText == "net::ERR_ABORTED" && !FinishedSince(es, b, es[b].key)
  }

  /** The request of event `b2` picked the stream of event `b` up further on, after event `x`. */
  ghost predicate Reconnects(es: seq<Event>, b: nat, x: nat, b2: nat) {
    && b < |es| && IsProper(es[b]) && x < b2 && IsFirstOfKey(es, b2) && es[b2].key != es[b].key
    && Strings.Trim(es[b2].url.threadSegment.value) == Strings.Trim(es[b].url.threadSegment.value)
    && Advances(es[b].url.lastStreamOffset, es[b2].url.lastStreamOffset)
    && !FailedSince(es, b2, es[b2].key)
    && exists p: nat :: AnsweredOk(es, b2, es[b2].key, p)
  }

  ghost predicate IsRecovered(es: seq<Event>, b: nat, x: nat)
    requires b < |es| && es[b].Begin?
  {
    IsCutOff(es, b, x) && exists b2: nat :: Reconnects(es, b, x, b2)
  }

  /** Event `b` sent the fault, Core answered it with the exact receipt, and the stream ended well. */
  ghost predicate Consumes(fault: Fault, es: seq<Event>, b: nat) {
    && IsFirstOnTarget(es, b)
    && AnsweredExactly(fault, es, b)
    && if FailedSince(es, b, es[b].key)
       then fault == ArtifactGapClose && exists x: nat :: IsRecovered(es, b, x)
       else FinishedSince(es, b, es[b].key)
  }

  lemma ReconnectsIff(fault: Fault, es: seq<Event>, b: nat, x: nat, b2: nat)
    requires IsFirstOfKey(es, b)
    ensures ReconnectedAfter(fault, es, b, x, b2) <==> Reconnects(es, b, x, b2)
  {
    hide Registers, Strings.Trim, FailedSince, AnsweredOk, StrictlyAdvances, SemanticStreamOffset, Advances;
    if b2 < |es| && es[b2].Begin? {
      RegistersIffFirstOfKey(fault, es, b2, es[b2].key);
      AdvancesIff(es[b].url.lastStreamOffset, es[b2].url.lastStreamOffset);
    }
  }

  lemma RecoveredIff(fault: Fault, es: seq<Event>, b: nat, x: nat)
    requires IsFirstOfKey(es, b)
    ensures CutOffAndRecovered(fault, es, b, x) && !FinishedSince(es, b, es[b].key) <==> IsRecovered(es, b, x)
  {
    hide ReconnectedAfter, Reconnects, LastFailure, FinishedSince;
    if b2: nat :| ReconnectedAfter(fault, es, b, x, b2) {
      ReconnectsIff(fault, es, b, x, b2);
    }
    if b2: nat :| Reconnects(es, b, x, b2) {
      ReconnectsIff(fault, es, b, x, b2);
    }
    assert IsCutOff(es, b, x) ==> LastFailure(es, b, es[b].key, x);
  }

  lemma ConsumesIff(fault: Fault, es: seq<Event>, b: nat)
    ensures FaultConsumed(fault, es, b) <==> Consumes(fault, es, b)
  {
    hide InjectedBy, IsFirstOnTarget, FailedSince, FinishedSince, AnsweredOk, CutOffAndRecovered, IsRecovered;
    InjectedIffFirstOnTarget(fault, es, b);
    if IsFirstOnTarget(es, b) {
      FirstOnTargetIsFirstOfKey(es, b);
      forall x: nat ensures CutOffAndRecovered(fault, es, b, x) && !FinishedSince(es, b, es[b].key) <==> IsRecovered(es, b, x) {
        RecoveredIff(fault, es, b, x);
      }
    }
  }

  lemma FirstOnTargetIsFirstOfKey(es: seq<Event>, b: nat)
    requires IsFirstOnTarget(es, b)
    ensures OnTarget(es, b) && IsFirstOfKey(es, b) && b < |es| && es[b].Begin? && IsProper(es[b])
  {
  }

  /**
   * After every run, the probe reports a receipt if and only if the first request begun on the
   * Thread bound first was answered with 200 and the exact receipt and either finished without
   * ever failing or (gap-close only) was cut off with ERR_ABORTED and never finished, while a later
   * request on the same Thread, at a strictly larger offset, was answered with 200 and never failed.
   */
  lemma ReceiptObservedIff(fault: Fault, es: seq<Event>)
    ensures ReceiptObserved(Run(fault, es)) <==> exists b: nat :: Consumes(fault, es, b)
  {
    hide Run, ReceiptObserved, FaultConsumed, Consumes;
    ReceiptObservedIffFaultConsumed(fault, es);
    if b: nat :| FaultConsumed(fault, es, b) {
      ConsumesIff(fault, es, b);
    }
    if b: nat :| Consumes(fault, es, b) {
      ConsumesIff(fault, es, b);
    }
  }

  // ----- requests in the order of their events

  lemma SequenceOfRecord(fault: Fault, es: seq<Event>, b: nat, r: Record)
    requires Told(fault, es, b, r)
    ensures b < |es| && r.request.requestSequence == Run(fault, es[..b]).sequence + 1
    ensures IsFirstOfKey(es, b) && es[b].key == r.request.key
  {
    hide Run, Accepts, Strings.Trim, RecoveryAtBegin, SemanticStreamOffset, Injects, FailedSince, FinishedSince, ToldResponse, ToldFailure, IsFirstOfKey;
    RegistersIffFirstOfKey(fault, es, b, r.request.key);
  }

  /** What a record keeps of its URL: the trimmed Thread id, and the offset if it is a readable numeral. */
  lemma RequestOfRecord(fault: Fault, es: seq<Event>, i: nat)
    requires i < |Run(fault, es).requests|
    ensures var r := Run(fault, es).requests[i].request;
            exists b: nat :: IsFirstOfKey(es, b) && es[b].key == r.key
              && r.threadId == Strings.Trim(es[b].url.threadSegment.value)
              && r.streamOffset == (if es[b].url.lastStreamOffset.Some? && IsOffset(es[b].url.lastStreamOffset.value)
                                    then es[b].url.lastStreamOffset else None)
  {
    hide Run, Told, IsOffset, Strings.Trim;
    EveryRecordIsTold(fault, es, i);
    var r := Run(fault, es).requests[i];
    var b: nat :| Told(fault, es, b, r);
    SequenceOfRecord(fault, es, b, r);
    ToldRequest(fault, es, b, r);
    if es[b].url.lastStreamOffset.Some? {
      OffsetIff(es[b].url.lastStreamOffset.value);
    }
  }

  lemma ToldRequest(fault: Fault, es: seq<Event>, b: nat, r: Record)
    requires Told(fault, es, b, r)
    ensures b < |es| && es[b].Begin? && es[b].url.threadSegment.Some?
    ensures r.request.threadId == Strings.Trim(es[b].url.threadSegment.value)
    ensures var offset := es[b].url.lastStreamOffset;
            r.request.streamOffset == if offset.Some? && IsDecimal(offset.value) then offset else None
  {
    hide Run, Strings.Trim, IsDecimal, Injects, RecoveryAtBegin, FailedSince, FinishedSince, ToldResponse, ToldFailure;
  }

  lemma RegisteringAdvances(fault: Fault, es: seq<Event>, b: nat, n: nat)
    requires IsFirstOfKey(es, b) && b < n <= |es|
    ensures Run(fault, es[..b]).sequence + 1 <= Run(fault, es[..n]).sequence
  {
    hide Run, Strings.Trim, RecoveryAtBegin, SemanticStreamOffset, Injects, Accepts;
    RegistersIffFirstOfKey(fault, es, b, es[b].key);
    RunOneMore(fault, es, b);
    SequenceAlong(fault, es, b + 1, n);
  }

  lemma RecordOfEvent(fault: Fault, es: seq<Event>, b: nat) returns (r: nat)
    requires IsFirstOfKey(es, b)
    ensures r < |Run(fault, es).requests| && Told(fault, es, b, Run(fault, es).requests[r])
  {
    hide Run, Told, Registers, Strings.Trim;
    RegistersIffFirstOfKey(fault, es, b, es[b].key);
    r := RecordOf(fault, es, b, es[b].key);
  }

  /** `q` asks for the requests registered by the events in `told`. */
  ghost predicate AsksFor(fault: Fault, es: seq<Event>, q: Query, told: set<nat>) {
    && (forall b: nat :: b in told ==> IsFirstOfKey(es, b))
    && (forall b: nat, r: Record :: r in Run(fault, es).requests && Told(fault, es, b, r) ==> (q.Holds(r) <==> b in told))
  }

  lemma EarliestIsFirst(fault: Fault, es: seq<Event>, q: Query, told: set<nat>, b: nat, r: nat)
    requires AsksFor(fault, es, q, told)
    requires r < |Run(fault, es).requests| && Told(fault, es, b, Run(fault, es).requests[r])
    ensures IsEarliest(Run(fault, es).requests, q, r) <==> b in told && forall b2: nat :: b2 < b ==> b2 !in told
  {
    hide Run, Told, IsFirstOfKey;
    var rs := Run(fault, es).requests;
    SequenceOfRecord(fault, es, b, rs[r]);
    assert q.Holds(rs[r]) <==> b in told;
    if IsEarliest(rs, q, r) {
      forall b2: nat | b2 < b ensures b2 !in told {
        if b2 in told {
          var r2 := RecordOfEvent(fault, es, b2);
          SequenceOfRecord(fault, es, b2, rs[r2]);
          RegisteringAdvances(fault, es, b2, b);
        }
      }
    }
    if b in told && forall b2: nat :: b2 < b ==> b2 !in told {
      forall j | 0 <= j < |rs| && q.Holds(rs[j]) ensures rs[r].request.requestSequence <= rs[j].request.requestSequence {
        EveryRecordIsTold(fault, es, j);
        var b2: nat :| Told(fault, es, b2, rs[j]);
        SequenceOfRecord(fault, es, b2, rs[j]);
        assert rs[j] in rs && b2 in told;
        SequenceAlong(fault, es, b, b2);
      }
    }
  }
}
