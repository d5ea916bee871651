/**
 * The two bounded body readers: `readRequestBytes` (`core-request.ts`), which pulls chunks from a
 * stream, and `readBodyUpTo` (`server.ts`), which reacts to events pushed by the request.
 */
module BodyReader {
  import opened Options
  import opened ByteStrings

  function Concat(chunks: seq<Bytes>): Bytes {
    if chunks == [] then [] else Concat(chunks[..|chunks| - 1]) + chunks[|chunks| - 1]
  }

  lemma {:induction false} ConcatGrows(chunks: seq<Bytes>, k: nat)
    requires k <= |chunks|
    ensures |Concat(chunks[..k])| <= |Concat(chunks)|
    ensures Concat(chunks)[..|Concat(chunks[..k])|] == Concat(chunks[..k])
    decreases |chunks| - k
  {
    if k == |chunks| {
      assert chunks[..k] == chunks;
    } else {
      ConcatGrows(chunks, k + 1);
      var longer := chunks[..k + 1];
      assert longer[..|longer| - 1] == chunks[..k];
      var n := |Concat(chunks[..k])|;
      assert Concat(chunks)[..n] == Concat(chunks)[..|Concat(longer)|][..n];
    }
  }

  // ----- pulling: readRequestBytes

  /** `bytes.set(chunk, offset)` */
  method SetAt(bytes: array<bv8>, chunk: Bytes, offset: nat)
    requires offset + |chunk| <= bytes.Length
    modifies bytes
    ensures bytes[..offset] == old(bytes[..offset])
    ensures bytes[offset..offset + |chunk|] == chunk
    ensures bytes[offset + |chunk|..] == old(bytes[offset + |chunk|..])
  {
    forall i | offset <= i < offset + |chunk| {
      bytes[i] := chunk[i - offset];
    }
  }

  /** The copy loop: the array is filled exactly, chunk after chunk. */
  method CopyChunks(chunks: seq<Bytes>, size: nat) returns (bytes: array<bv8>)
    requires size == |Concat(chunks)|
    ensures bytes[..] == Concat(chunks)
  {
    bytes := new bv8[size];
    var offset := 0;
    for i := 0 to |chunks|
      invariant offset == |Concat(chunks[..i])| <= bytes.Length
      invariant bytes[..offset] == Concat(chunks[..i])
    {
      assert chunks[..i + 1][..i] == chunks[..i];
      ConcatGrows(chunks, i + 1);
      SetAt(bytes, chunks[i], offset);
      assert bytes[..offset + |chunks[i]|] == bytes[..offset] + bytes[offset..offset + |chunks[i]|];
      offset := offset + |chunks[i]|;
    }
    assert chunks[..|chunks|] == chunks;
    assert bytes[..offset] == bytes[..];
  }

  /**
   * The exact concatenation when it fits and no larger length is declared, a refusal otherwise.
   * `pulled` counts the chunks taken from the stream: a refusal comes with the first chunk that
   * passes the limit, and a larger declared length is refused before anything is read. A declared
   * length that is no number is ignored.
   */
  method ReadRequestBytes(declared: Option<real>, body: Option<seq<Bytes>>, maxBytes: nat)
    returns (bytes: Option<array<bv8>>, pulled: nat)
    ensures var refused := declared.Some? && declared.value > maxBytes as real;
            bytes.Some? <==> !refused && (body.None? || |Concat(body.value)| <= maxBytes)
    ensures bytes.Some? ==> bytes.value[..] == if body.Some? then Concat(body.value) else []
    ensures (declared.Some? && declared.value > maxBytes as real) || body.None? ==> pulled == 0
    ensures !(declared.Some? && declared.value > maxBytes as real) && body.Some? ==>
              && pulled <= |body.value|
              && (bytes.Some? ==> pulled == |body.value|)
              && (bytes.None? ==> pulled > 0 && |Concat(body.value[..pulled])| > maxBytes >= |Concat(body.value[..pulled - 1])|)
  {
    if declared.Some? && declared.value > maxBytes as real {
      return None, 0;
    }
    if body.None? {
      var nothing := new bv8[0];
      return Some(nothing), 0;
    }
    var source := body.value;
    var chunks := [];
    var bytesRead := 0;
    pulled := 0;
    while pulled < |source|
      invariant pulled <= |source|
      invariant chunks == source[..pulled]
      invariant bytesRead == |Concat(chunks)| <= maxBytes
    {
      var value := source[pulled];
      assert source[..pulled + 1][..pulled] == source[..pulled];
      pulled := pulled + 1;
      bytesRead := bytesRead + |value|;
      if bytesRead > maxBytes {
        ConcatGrows(source, pulled);
        return None, pulled;
      }
      chunks := chunks + [value];
    }
    assert chunks == source;
    var filled := CopyChunks(chunks, bytesRead);
    bytes := Some(filled);
  }

  // ----- pushing: readBodyUpTo

  datatype Event = Data(bytes: Bytes) | End | Error | Aborted

  datatype Outcome = Body(bytes: Bytes) | TooLarge | Failed | Cut

  /** `calls` lists every resolve or reject of the promise. */
  datatype Reading = Reading(chunks: seq<Bytes>, sizeBytes: nat, settled: bool, calls: seq<Outcome>)

  const INITIAL := Reading([], 0, false, [])

  /** `Buffer.concat(chunks, size)`: cut or padded with zeros to `size` bytes. */
  function ConcatTo(chunks: seq<Bytes>, size: nat): (r: Bytes)
    ensures |r| == size
  {
    var all := Concat(chunks);
    if size <= |all| then all[..size] else all + seq(size - |all|, _ => 0)
  }

  function Settle(r: Reading, o: Outcome): Reading {
    r.(settled := true, calls := r.calls + [o])
  }

  function Step(maxBytes: nat, r: Reading, e: Event): Reading {
    if r.settled then r else
      match e
      case Data(bytes) =>
        var size := r.sizeBytes + |bytes|;
        if size > maxBytes then Settle(r.(chunks := [], sizeBytes := size), TooLarge)
        else r.(chunks := r.chunks + [bytes], sizeBytes := size)
      case End => Settle(r, Body(ConcatTo(r.chunks, r.sizeBytes)))
      case Error => Settle(r, Failed)
      case Aborted => Settle(r, Cut)
  }

  /** The promise and its listeners. */
  class BodyUpTo {
    const maxBytes: nat
    var chunks: seq<Bytes>
    var sizeBytes: nat
    var settled: bool
    var calls: seq<Outcome>

    ghost function State(): Reading reads this { Reading(chunks, sizeBytes, settled, calls) }

    constructor (maxBytes: nat)
      ensures this.maxBytes == maxBytes && State() == INITIAL
    {
      this.maxBytes := maxBytes;
      chunks, sizeBytes, settled, calls := [], 0, false, [];
    }

    method OnData(bytes: Bytes)
      modifies this
      ensures State() == Step(maxBytes, old(State()), Data(bytes))
    {
      if settled { return; }
      sizeBytes := sizeBytes + |bytes|;
      if sizeBytes > maxBytes {
        settled := true;
        chunks := [];
        calls := calls + [TooLarge];
        return;
      }
      chunks := chunks + [bytes];
    }

    method OnEnd()
      modifies this
      ensures State() == Step(maxBytes, old(State()), End)
    {
      if settled { return; }
      settled := true;
      calls := calls + [Body(ConcatTo(chunks, sizeBytes))];
    }

    method OnError()
      modifies this
      ensures State() == Step(maxBytes, old(State()), Error)
    {
      if settled { return; }
      settled := true;
      calls := calls + [Failed];
    }

    method OnAborted()
      modifies this
      ensures State() == Step(maxBytes, old(State()), Aborted)
    {
      if settled { return; }
      settled := true;
      calls := calls + [Cut];
    }
  }

  /** Deliver a run of events to a reader, in order. */
  method Deliver(reader: BodyUpTo, events: seq<Event>)
    requires reader.State() == INITIAL
    modifies reader
    ensures reader.State() == Run(reader.maxBytes, events)
  {
    for i := 0 to |events|
      invariant reader.State() == Run(reader.maxBytes, events[..i])
    {
      assert events[..i + 1][..i] == events[..i];
      match events[i]
      case Data(bytes) => reader.OnData(bytes);
      case End => reader.OnEnd();
      case Error => reader.OnError();
      case Aborted => reader.OnAborted();
    }
    assert events[..|events|] == events;
  }

  function Run(maxBytes: nat, events: seq<Event>): Reading {
    if events == [] then INITIAL
    else Step(maxBytes, Run(maxBytes, events[..|events| - 1]), events[|events| - 1])
  }

  // ----- what decides a run

  /** The bytes pushed by a run of events. */
  function Pushed(events: seq<Event>): Bytes {
    if events == [] then []
    else
      var last := events[|events| - 1];
      Pushed(events[..|events| - 1]) + if last.Data? then last.bytes else []
  }

  /** Event `k` ends the body, breaks it, or takes it over the limit. */
  predicate Decides(maxBytes: nat, events: seq<Event>, k: nat)
    requires k < |events|
  {
    !events[k].Data? || |Pushed(events[..k + 1])| > maxBytes
  }

  function Verdict(events: seq<Event>, k: nat): Outcome
    requires k < |events|
  {
    match events[k]
    case Data(_) => TooLarge
    case End => Body(Pushed(events[..k]))
    case Error => Failed
    case Aborted => Cut
  }

  predicate Undecided(maxBytes: nat, events: seq<Event>) {
    forall k: nat :: k < |events| ==> !Decides(maxBytes, events, k)
  }

  lemma {:induction false} UndecidedRun(maxBytes: nat, events: seq<Event>)
    requires Undecided(maxBytes, events)
    ensures var r := Run(maxBytes, events);
            && !r.settled && r.calls == [] && r.sizeBytes == |Pushed(events)| <= maxBytes
            && Concat(r.chunks) == Pushed(events)
  {
    if events != [] {
      var before := events[..|events| - 1];
      forall k: nat | k < |before| ensures !Decides(maxBytes, before, k) {
        assert before[..k + 1] == events[..k + 1];
        assert !Decides(maxBytes, events, k);
      }
      UndecidedRun(maxBytes, before);
      assert !Decides(maxBytes, events, |events| - 1);
      assert events[..|events| - 1 + 1] == events;
      var r := Run(maxBytes, before);
      var bytes := events[|events| - 1].bytes;
      assert (r.chunks + [bytes])[..|r.chunks|] == r.chunks;
    }
  }

  lemma {:induction false} SettledForGood(maxBytes: nat, events: seq<Event>, k: nat)
    requires k <= |events| && Run(maxBytes, events[..k]).settled
    ensures Run(maxBytes, events) == Run(maxBytes, events[..k])
    decreases |events|
  {
    if k == |events| {
      assert events[..k] == events;
    } else {
      var before := events[..|events| - 1];
      assert before[..k] == events[..k];
      SettledForGood(maxBytes, before, k);
    }
  }

  /** The first deciding event settles the promise, once and with its own verdict. */
  lemma FirstDecisionSettles(maxBytes: nat, events: seq<Event>, k: nat)
    requires k < |events| && Decides(maxBytes, events, k)
    requires forall j: nat :: j < k ==> !Decides(maxBytes, events, j)
    ensures Run(maxBytes, events).settled && Run(maxBytes, events).calls == [Verdict(events, k)]
  {
    var before := events[..k];
    var through := events[..k + 1];
    forall j: nat | j < |before| ensures !Decides(maxBytes, before, j) {
      assert before[..j + 1] == events[..j + 1];
      assert !Decides(maxBytes, events, j);
    }
    UndecidedRun(maxBytes, before);
    assert through[..|through| - 1] == before;
    var r := Run(maxBytes, before);
    assert ConcatTo(r.chunks, r.sizeBytes) == Pushed(before);
    assert Run(maxBytes, through).calls == [Verdict(events, k)];
    SettledForGood(maxBytes, events, k + 1);
  }

  lemma {:induction false} FirstDecision(maxBytes: nat, events: seq<Event>, n: nat) returns (k: nat)
    requires n <= |events|
    ensures k <= n
    ensures k < n ==> Decides(maxBytes, events, k)
    ensures forall j: nat :: j < k ==> !Decides(maxBytes, events, j)
  {
    if n == 0 {
      k := 0;
    } else {
      k := FirstDecision(maxBytes, events, n - 1);
      if k == n - 1 && !Decides(maxBytes, events, n - 1) {
        k := n;
      }
    }
  }

  /** However events arrive, the promise settles at most once and never changes its mind. */
  lemma SettlesAtMostOnce(maxBytes: nat, events: seq<Event>, k: nat)
    requires k <= |events|
    ensures var r := Run(maxBytes, events);
            && |r.calls| <= 1
            && (r.settled <==> |r.calls| == 1)
            && (r.settled <==> !Undecided(maxBytes, events))
            && (Run(maxBytes, events[..k]).settled ==> r.calls == Run(maxBytes, events[..k]).calls)
  {
    var first := FirstDecision(maxBytes, events, |events|);
    if first < |events| {
      FirstDecisionSettles(maxBytes, events, first);
    } else {
      UndecidedRun(maxBytes, events);
    }
    if Run(maxBytes, events[..k]).settled {
      SettledForGood(maxBytes, events, k);
    }
  }

  // ----- a complete body

  function AsData(chunks: seq<Bytes>): seq<Event> {
    seq(|chunks|, i requires 0 <= i < |chunks| => Data(chunks[i]))
  }

  lemma {:induction false} PushedChunks(chunks: seq<Bytes>, later: seq<Event>, k: nat)
    requires k <= |chunks|
    ensures Pushed((AsData(chunks) + later)[..k]) == Concat(chunks[..k])
  {
    if k > 0 {
      var events := AsData(chunks) + later;
      PushedChunks(chunks, later, k - 1);
      assert events[..k][..k - 1] == events[..k - 1];
      assert chunks[..k][..k - 1] == chunks[..k - 1];
    }
  }

  /**
   * A complete body settles with its exact concatenation when that fits, and is refused
   * otherwise, whatever the chunk boundaries and whatever follows the end.
   */
  lemma CompleteBody(maxBytes: nat, chunks: seq<Bytes>, later: seq<Event>)
    ensures Run(maxBytes, AsData(chunks) + ([End] + later)).calls
         == [if |Concat(chunks)| <= maxBytes then Body(Concat(chunks)) else TooLarge]
  {
    var events := AsData(chunks) + ([End] + later);
    var k := FirstDecision(maxBytes, events, |chunks| + 1);
    assert Decides(maxBytes, events, |chunks|);
    forall j: nat | j < |chunks|
      ensures Decides(maxBytes, events, j) <==> |Concat(chunks[..j + 1])| > maxBytes
    {
      PushedChunks(chunks, [End] + later, j + 1);
      assert events[j] == Data(chunks[j]);
    }
    assert k <= |chunks|;
    FirstDecisionSettles(maxBytes, events, k);
    PushedChunks(chunks, [End] + later, |chunks|);
    assert chunks[..|chunks|] == chunks;
    if k < |chunks| {
      ConcatGrows(chunks, k + 1);
    } else if chunks != [] {
      assert !Decides(maxBytes, events, |chunks| - 1);
    }
  }

  /** Two chunkings of one body cannot be told apart by the outcome of the pushing reader. */
  lemma ChunkingDoesNotMatter(maxBytes: nat, a: seq<Bytes>, b: seq<Bytes>, later: seq<Event>)
    requires Concat(a) == Concat(b)
    ensures Run(maxBytes, AsData(a) + ([End] + later)).calls == Run(maxBytes, AsData(b) + ([End] + later)).calls
  {
    CompleteBody(maxBytes, a, later);
    CompleteBody(maxBytes, b, later);
  }

  /** The pulling and the pushing reader agree on every complete body without a declared length. */
  method ReadersAgree(chunks: seq<Bytes>, maxBytes: nat) returns (pulled: Outcome, pushed: Outcome)
    ensures pulled == pushed
    ensures pulled == if |Concat(chunks)| <= maxBytes then Body(Concat(chunks)) else TooLarge
  {
    var bytes, _ := ReadRequestBytes(None, Some(chunks), maxBytes);
    pulled := if bytes.Some? then Body(bytes.value[..]) else TooLarge;
    var reader := new BodyUpTo(maxBytes);
    Deliver(reader, AsData(chunks) + ([End] + []));
    CompleteBody(maxBytes, chunks, []);
    assert reader.calls == reader.State().calls;
    pushed := reader.calls[0];
  }
}
