/**
 * Idempotency keys that survive retries: one attempt per scope in browser session storage,
 * reused while the payload stays the same and dropped when the submission completes.
 */
module StableSubmission {
  import opened Options
  import opened Json
  import CanonicalJson
  import Sorting

  /** The digest of a canonical payload; digesting is taken to be injective. */
  type Fingerprint = Json

  datatype Attempt = Attempt(fingerprint: Fingerprint, idempotencyKey: string, scope: string)

  /** What a storage entry parses to: an attempt, or text that is no attempt. */
  datatype Entry = Stored(fingerprint: Fingerprint, idempotencyKey: string) | Unreadable

  type Storage = map<string, Entry>

  const STORAGE_PREFIX := "meiye-submission-attempt:v1:"

  function StorageKey(scope: string): string { STORAGE_PREFIX + scope }

  lemma StorageKeyIsInjective(a: string, b: string)
    ensures StorageKey(a) == StorageKey(b) <==> a == b
  {
    assert StorageKey(a)[|STORAGE_PREFIX|..] == a && StorageKey(b)[|STORAGE_PREFIX|..] == b;
  }

  function ReadAttempt(storage: Storage, scope: string): Option<Entry> {
    if StorageKey(scope) in storage && storage[StorageKey(scope)].Stored?
    then Some(storage[StorageKey(scope)])
    else None
  }

  function BeginIn(storage: Storage, scope: string, fingerprint: Fingerprint, created: string): (Storage, Attempt) {
    var existing := ReadAttempt(storage, scope);
    if existing.Some? && existing.value.fingerprint == fingerprint
    then (storage, Attempt(fingerprint, existing.value.idempotencyKey, scope))
    else (storage[StorageKey(scope) := Stored(fingerprint, created)], Attempt(fingerprint, created, scope))
  }

  function CompleteIn(storage: Storage, attempt: Attempt): Storage {
    if ReadAttempt(storage, attempt.scope) == Some(Stored(attempt.fingerprint, attempt.idempotencyKey))
    then storage - {StorageKey(attempt.scope)}
    else storage
  }

  class SubmissionAttempts {
    var storage: Storage
    const keyLe: (string, string) -> bool

    constructor (storage: Storage, keyLe: (string, string) -> bool)
      ensures this.storage == storage && this.keyLe == keyLe
    {
      this.storage, this.keyLe := storage, keyLe;
    }

    method Begin(scope: string, payload: Json, createIdempotencyKey: string) returns (attempt: Attempt)
      modifies this
      ensures (storage, attempt)
              == BeginIn(old(storage), scope, CanonicalJson.StableValue(keyLe, payload), createIdempotencyKey)
      ensures var at := "meiye-submission-attempt:v1:" + scope;
              at in storage && storage[at] == Stored(attempt.fingerprint, attempt.idempotencyKey)
      ensures ReadAttempt(storage, scope) == Some(Stored(attempt.fingerprint, attempt.idempotencyKey))
      ensures storage - {StorageKey(scope)} == old(storage) - {StorageKey(scope)}
    {
      var fingerprint := CanonicalJson.StableValue(keyLe, payload);
      var existing := ReadAttempt(storage, scope);
      if existing.Some? && existing.value.fingerprint == fingerprint {
        return Attempt(existing.value.fingerprint, existing.value.idempotencyKey, scope);
      }
      storage := storage[StorageKey(scope) := Stored(fingerprint, createIdempotencyKey)];
      return Attempt(fingerprint, createIdempotencyKey, scope);
    }

    method Complete(attempt: Attempt)
      modifies this
      ensures storage == CompleteIn(old(storage), attempt)
      ensures storage - {StorageKey(attempt.scope)} == old(storage) - {StorageKey(attempt.scope)}
    {
      var current := ReadAttempt(storage, attempt.scope);
      if current.Some? && current.value.fingerprint == attempt.fingerprint
         && current.value.idempotencyKey == attempt.idempotencyKey {
        storage := storage - {StorageKey(attempt.scope)};
      }
    }

    /**
     * Runs an action under a stable key. `meanwhile` is what other submissions do to the storage
     * while the action is awaited, and `succeeds` is the action's outcome. With new keys, success
     * clears the scope if and only if nothing ended the attempt meanwhile; a newer one survives.
     */
    method RunWith(scope: string, payload: Json, createIdempotencyKey: string, meanwhile: seq<Event>, succeeds: bool)
      returns (key: string)
      modifies this
      ensures var begun := BeginIn(old(storage), scope, CanonicalJson.StableValue(keyLe, payload), createIdempotencyKey);
              && key == begun.1.idempotencyKey
              && var awaited := After(begun.0, meanwhile);
                 storage == if succeeds then CompleteIn(awaited, begun.1) else awaited
      ensures var fingerprint := CanonicalJson.StableValue(keyLe, payload);
              var begun := BeginIn(old(storage), scope, fingerprint, createIdempotencyKey);
              var awaited := After(begun.0, meanwhile);
              succeeds && KeysDiffer(old(storage))
              && FreshKeys(old(storage), RunEvents(scope, fingerprint, createIdempotencyKey, meanwhile)) ==>
                if NoneEnds(meanwhile, begun.1)
                then StorageKey(scope) in awaited && storage == awaited - {StorageKey(scope)}
                else storage == awaited
    {
      hide CanonicalJson.StableValue;
      var attempt := Begin(scope, payload, createIdempotencyKey);
      key := attempt.idempotencyKey;
      ghost var begun := storage;
      for i := 0 to |meanwhile|
        invariant storage == After(begun, meanwhile[..i])
      {
        assert meanwhile[..i + 1][..i] == meanwhile[..i];
        storage := Step(storage, meanwhile[i]);
      }
      assert meanwhile[..|meanwhile|] == meanwhile;
      ghost var fingerprint := CanonicalJson.StableValue(keyLe, payload);
      if KeysDiffer(old(storage)) && FreshKeys(old(storage), RunEvents(scope, fingerprint, createIdempotencyKey, meanwhile)) {
        CompletionOfRun(old(storage), scope, fingerprint, createIdempotencyKey, meanwhile);
      }
      if succeeds {
        Complete(attempt);
      }
    }
  }

  // ----- runs

  datatype Event =
    | Begin(scope: string, fingerprint: Fingerprint, created: string)
    | Complete(attempt: Attempt)

  function Step(storage: Storage, e: Event): Storage {
    match e
    case Begin(scope, fingerprint, created) => BeginIn(storage, scope, fingerprint, created).0
    case Complete(attempt) => CompleteIn(storage, attempt)
  }

  function After(first: Storage, es: seq<Event>): Storage {
    if es == [] then first else Step(After(first, es[..|es| - 1]), es[|es| - 1])
  }

  /** The attempt that the begin at position `i` returned. */
  function Returned(first: Storage, es: seq<Event>, i: nat): Attempt
    requires i < |es| && es[i].Begin?
  {
    BeginIn(After(first, es[..i]), es[i].scope, es[i].fingerprint, es[i].created).1
  }

  ghost predicate Holds(storage: Storage, at: string, key: string) {
    at in storage && storage[at].Stored? && storage[at].idempotencyKey == key
  }

  /** No two entries share a key. */
  ghost predicate KeysDiffer(storage: Storage) {
    forall a, b, key :: Holds(storage, a, key) && Holds(storage, b, key) ==> a == b
  }

  /** Every created key is new: not in the first storage and not created before. */
  ghost predicate FreshKeys(first: Storage, es: seq<Event>) {
    && (forall i, at :: 0 <= i < |es| && es[i].Begin? ==> !Holds(first, at, es[i].created))
    && (forall i, j :: 0 <= i < j < |es| && es[i].Begin? && es[j].Begin? ==> es[i].created != es[j].created)
  }

  /** An event that ends the life of attempt `a`. */
  predicate Ends(e: Event, a: Attempt) {
    match e
    case Begin(scope, fingerprint, _) => scope == a.scope && fingerprint != a.fingerprint
    case Complete(attempt) => attempt == a
  }

  predicate Lives(es: seq<Event>, i: nat, j: nat, a: Attempt) {
    forall k :: i < k < j && k < |es| ==> !Ends(es[k], a)
  }

  /** The key of `a` is stored under its scope and nowhere else. */
  ghost predicate StoredOnly(storage: Storage, a: Attempt) {
    && ReadAttempt(storage, a.scope) == Some(Stored(a.fingerprint, a.idempotencyKey))
    && forall at :: Holds(storage, at, a.idempotencyKey) ==> at == StorageKey(a.scope)
  }

  ghost predicate Absent(storage: Storage, a: Attempt) {
    forall at :: !Holds(storage, at, a.idempotencyKey)
  }

  /** A step stores no key but the one it creates. */
  lemma StepHolds(storage: Storage, e: Event, at: string, key: string)
    requires Holds(Step(storage, e), at, key)
    ensures Holds(storage, at, key) || (e.Begin? && key == e.created && at == StorageKey(e.scope))
  {
  }

  lemma EventOnLiving(storage: Storage, e: Event, a: Attempt)
    requires StoredOnly(storage, a) && (e.Begin? ==> e.created != a.idempotencyKey)
    ensures if Ends(e, a) then Absent(Step(storage, e), a) else StoredOnly(Step(storage, e), a)
  {
    if e.Begin? {
      StorageKeyIsInjective(e.scope, a.scope);
    } else {
      StorageKeyIsInjective(e.attempt.scope, a.scope);
    }
    forall at | Holds(Step(storage, e), at, a.idempotencyKey) ensures Holds(storage, at, a.idempotencyKey) {
      StepHolds(storage, e, at, a.idempotencyKey);
    }
  }

  lemma EventOnEnded(storage: Storage, e: Event, a: Attempt)
    requires Absent(storage, a) && (e.Begin? ==> e.created != a.idempotencyKey)
    ensures Absent(Step(storage, e), a)
  {
    forall at ensures !Holds(Step(storage, e), at, a.idempotencyKey) {
      if Holds(Step(storage, e), at, a.idempotencyKey) {
        StepHolds(storage, e, at, a.idempotencyKey);
      }
    }
  }

  /** Keys in storage come from the first storage or from earlier events. */
  lemma {:induction false} StoredKeysHaveAnOrigin(first: Storage, es: seq<Event>, at: string, key: string)
    requires Holds(After(first, es), at, key)
    ensures Holds(first, at, key) || exists i :: 0 <= i < |es| && es[i].Begin? && es[i].created == key
  {
    if es != [] {
      var n := |es| - 1;
      if Holds(After(first, es[..n]), at, key) {
        StoredKeysHaveAnOrigin(first, es[..n], at, key);
        if !Holds(first, at, key) {
          var i :| 0 <= i < n && es[..n][i].Begin? && es[..n][i].created == key;
          assert es[i].Begin? && es[i].created == key;
        }
      } else {
        assert es[n].Begin? && es[n].created == key;
      }
    }
  }

  lemma {:induction false} KeysStayDifferent(first: Storage, es: seq<Event>)
    requires KeysDiffer(first) && FreshKeys(first, es)
    ensures KeysDiffer(After(first, es))
  {
    if es != [] {
      var n := |es| - 1;
      KeysStayDifferent(first, es[..n]);
      var before := After(first, es[..n]);
      if es[n].Begin? {
        forall at ensures !Holds(before, at, es[n].created) {
          if Holds(before, at, es[n].created) {
            StoredKeysHaveAnOrigin(first, es[..n], at, es[n].created);
          }
        }
      }
      forall a, b, key | Holds(Step(before, es[n]), a, key) && Holds(Step(before, es[n]), b, key) ensures a == b {
        StepHolds(before, es[n], a, key);
        StepHolds(before, es[n], b, key);
      }
    }
  }

  // ----- when two begins share a key

  lemma BeginStores(storage: Storage, scope: string, fingerprint: Fingerprint, created: string)
    ensures var begun := BeginIn(storage, scope, fingerprint, created);
            && begun.1.scope == scope && begun.1.fingerprint == fingerprint
            && ReadAttempt(begun.0, scope) == Some(Stored(fingerprint, begun.1.idempotencyKey))
            && Holds(begun.0, StorageKey(scope), begun.1.idempotencyKey)
  {
  }

  lemma PrefixIsFresh(first: Storage, es: seq<Event>, i: nat)
    requires FreshKeys(first, es) && i <= |es|
    ensures FreshKeys(first, es[..i])
  {
  }

  lemma ReturnedIsStoredOnly(first: Storage, es: seq<Event>, i: nat)
    requires KeysDiffer(first) && FreshKeys(first, es) && i < |es| && es[i].Begin?
    ensures StoredOnly(After(first, es[..i + 1]), Returned(first, es, i))
  {
    var upTo := es[..i + 1];
    assert upTo[..i] == es[..i] && upTo[i] == es[i];
    PrefixIsFresh(first, es, i + 1);
    KeysStayDifferent(first, upTo);
    BeginStores(After(first, es[..i]), es[i].scope, es[i].fingerprint, es[i].created);
  }

  /** A key returned at `i` is never created again later. */
  lemma LaterKeysAreOthers(first: Storage, es: seq<Event>, i: nat, j: nat)
    requires FreshKeys(first, es) && i < j < |es| && es[i].Begin? && es[j].Begin?
    ensures es[j].created != Returned(first, es, i).idempotencyKey
  {
    var key := Returned(first, es, i).idempotencyKey;
    if key != es[i].created {
      StoredKeysHaveAnOrigin(first, es[..i], StorageKey(es[i].scope), key);
    }
  }

  /** From its return on, an attempt stays stored until an event ends it, and then its key is gone for good. */
  lemma {:induction false} LifeOfAnAttempt(first: Storage, es: seq<Event>, i: nat, j: nat)
    requires KeysDiffer(first) && FreshKeys(first, es) && i < j <= |es| && es[i].Begin?
    ensures var a := Returned(first, es, i);
            if Lives(es, i, j, a) then StoredOnly(After(first, es[..j]), a) else Absent(After(first, es[..j]), a)
    decreases j
  {
    hide StoredOnly, Absent, Step, Ends;
    var a := Returned(first, es, i);
    if j == i + 1 {
      ReturnedIsStoredOnly(first, es, i);
    } else {
      LifeOfAnAttempt(first, es, i, j - 1);
      var before := After(first, es[..j - 1]);
      assert es[..j][..j - 1] == es[..j - 1] && es[..j][j - 1] == es[j - 1];
      if es[j - 1].Begin? {
        LaterKeysAreOthers(first, es, i, j - 1);
      }
      assert Lives(es, i, j, a) <==> Lives(es, i, j - 1, a) && !Ends(es[j - 1], a);
      if Lives(es, i, j - 1, a) {
        EventOnLiving(before, es[j - 1], a);
      } else {
        EventOnEnded(before, es[j - 1], a);
      }
    }
  }

  /**
   * Two begins return the same key if and only if they agree on scope and payload and no begin
   * with another payload in that scope and no completion of that very attempt lies between them.
   */
  lemma SameKeyIff(first: Storage, es: seq<Event>, i: nat, j: nat)
    requires KeysDiffer(first) && FreshKeys(first, es)
    requires i < j < |es| && es[i].Begin? && es[j].Begin?
    ensures Returned(first, es, i).idempotencyKey == Returned(first, es, j).idempotencyKey <==>
              && es[i].scope == es[j].scope && es[i].fingerprint == es[j].fingerprint
              && Lives(es, i, j, Returned(first, es, i))
  {
    var a, b := Returned(first, es, i), Returned(first, es, j);
    BeginStores(After(first, es[..i]), es[i].scope, es[i].fingerprint, es[i].created);
    BeginStores(After(first, es[..j]), es[j].scope, es[j].fingerprint, es[j].created);
    LifeOfAnAttempt(first, es, i, j);
    LifeOfAnAttempt(first, es, i, j + 1);
    assert es[..j + 1][..j] == es[..j] && es[..j + 1][j] == es[j];
    assert Lives(es, i, j + 1, a) <==> Lives(es, i, j, a) && !Ends(es[j], a);
    if a.idempotencyKey == b.idempotencyKey {
      assert Holds(After(first, es[..j + 1]), StorageKey(es[j].scope), a.idempotencyKey);
      StorageKeyIsInjective(es[i].scope, es[j].scope);
    }
  }

  /** Over payloads: the same key is returned only for payloads that differ in key order at most. */
  lemma SameKeySamePayload(le: (string, string) -> bool, first: Storage, es: seq<Event>, i: nat, j: nat, p: Json, q: Json)
    requires KeysDiffer(first) && FreshKeys(first, es)
    requires i < j < |es| && es[i].Begin? && es[j].Begin?
    requires es[i].fingerprint == CanonicalJson.StableValue(le, p) && es[j].fingerprint == CanonicalJson.StableValue(le, q)
    requires Returned(first, es, i).idempotencyKey == Returned(first, es, j).idempotencyKey
    ensures CanonicalJson.SameUpToKeyOrder(p, q)
  {
    hide CanonicalJson.StableValue, CanonicalJson.SameUpToKeyOrder;
    SameKeyIff(first, es, i, j);
    CanonicalJson.SameIfCanonical(le, p, q);
  }

  /** And among payloads without tied names it is returned for all of those. */
  lemma SamePayloadKeyIff(le: (string, string) -> bool, first: Storage, es: seq<Event>, i: nat, j: nat, p: Json, q: Json)
    requires KeysDiffer(first) && FreshKeys(first, es)
    requires i < j < |es| && es[i].Begin? && es[j].Begin?
    requires es[i].fingerprint == CanonicalJson.StableValue(le, p) && es[j].fingerprint == CanonicalJson.StableValue(le, q)
    requires Sorting.TotalPreorder(le) && WellFormed(p) && WellFormed(q) && CanonicalJson.NoTies(le, p)
    ensures Returned(first, es, i).idempotencyKey == Returned(first, es, j).idempotencyKey <==>
              && es[i].scope == es[j].scope && CanonicalJson.SameUpToKeyOrder(p, q)
              && Lives(es, i, j, Returned(first, es, i))
  {
    hide CanonicalJson.StableValue, CanonicalJson.SameUpToKeyOrder, CanonicalJson.NoTies, Sorting.TotalPreorder;
    SameKeyIff(first, es, i, j);
    CanonicalJson.CanonicalIffSame(le, p, q);
  }

  // ----- completing

  /** Completing an attempt frees its scope if and only if the attempt still lives. */
  lemma CompletionFreesIff(first: Storage, es: seq<Event>, i: nat, k: nat)
    requires KeysDiffer(first) && FreshKeys(first, es) && i < k <= |es| && es[i].Begin?
    ensures var a, now := Returned(first, es, i), After(first, es[..k]);
            if Lives(es, i, k, a)
            then StorageKey(a.scope) in now && CompleteIn(now, a) == now - {StorageKey(a.scope)}
            else CompleteIn(now, a) == now
  {
    hide After, Returned, Lives;
    LifeOfAnAttempt(first, es, i, k);
    var a, now := Returned(first, es, i), After(first, es[..k]);
    if ReadAttempt(now, a.scope) == Some(Stored(a.fingerprint, a.idempotencyKey)) {
      assert Holds(now, StorageKey(a.scope), a.idempotencyKey);
    }
  }

  predicate NoneEnds(es: seq<Event>, a: Attempt) {
    forall k :: 0 <= k < |es| ==> !Ends(es[k], a)
  }

  /** A begin followed by what happens while its action is awaited. */
  function RunEvents(scope: string, fingerprint: Fingerprint, created: string, meanwhile: seq<Event>): seq<Event> {
    [Begin(scope, fingerprint, created)] + meanwhile
  }

  lemma {:induction false} AfterBegin(first: Storage, e: Event, meanwhile: seq<Event>)
    ensures After(first, [e] + meanwhile) == After(Step(first, e), meanwhile)
  {
    hide Step;
    var es := [e] + meanwhile;
    if meanwhile == [] {
      assert es == [e] && es[..0] == [];
    } else {
      var n := |meanwhile| - 1;
      assert es[..|es| - 1] == [e] + meanwhile[..n];
      AfterBegin(first, e, meanwhile[..n]);
    }
  }

  lemma CompletionOfRun(first: Storage, scope: string, fingerprint: Fingerprint, created: string, meanwhile: seq<Event>)
    requires KeysDiffer(first) && FreshKeys(first, RunEvents(scope, fingerprint, created, meanwhile))
    ensures var begun := BeginIn(first, scope, fingerprint, created);
            var awaited := After(begun.0, meanwhile);
            if NoneEnds(meanwhile, begun.1)
            then StorageKey(scope) in awaited && CompleteIn(awaited, begun.1) == awaited - {StorageKey(scope)}
            else CompleteIn(awaited, begun.1) == awaited
  {
    hide CompleteIn, BeginIn, KeysDiffer, FreshKeys;
    var es := RunEvents(scope, fingerprint, created, meanwhile);
    var a := BeginIn(first, scope, fingerprint, created).1;
    assert es[..0] == [] && es[..|es|] == es;
    assert Returned(first, es, 0) == a;
    BeginStores(first, scope, fingerprint, created);
    AfterBegin(first, es[0], meanwhile);
    assert Lives(es, 0, |es|, a) <==> NoneEnds(meanwhile, a) by {
      assert forall k :: 0 <= k < |meanwhile| ==> es[k + 1] == meanwhile[k];
      assert forall k :: 0 < k < |es| ==> es[k] == meanwhile[k - 1];
    }
    CompletionFreesIff(first, es, 0, |es|);
  }

  lemma LivesUntil(es: seq<Event>, i: nat, j: nat, k: nat, a: Attempt)
    requires i < j < k <= |es|
    ensures Lives(es, i, k, a) ==> Lives(es, i, j, a) && !Ends(es[j], a)
  {
  }

  /** Once a newer attempt has been returned in its scope, completing an attempt never changes the storage. */
  lemma CompletingAnOlderAttempt(first: Storage, es: seq<Event>, i: nat, j: nat, k: nat)
    requires KeysDiffer(first) && FreshKeys(first, es)
    requires i < j < k <= |es| && es[i].Begin? && es[j].Begin? && es[i].scope == es[j].scope
    requires Returned(first, es, i) != Returned(first, es, j)
    ensures CompleteIn(After(first, es[..k]), Returned(first, es, i)) == After(first, es[..k])
  {
    hide After, CompleteIn;
    var a := Returned(first, es, i);
    BeginStores(After(first, es[..i]), es[i].scope, es[i].fingerprint, es[i].created);
    BeginStores(After(first, es[..j]), es[j].scope, es[j].fingerprint, es[j].created);
    SameKeyIff(first, es, i, j);
    LivesUntil(es, i, j, k, a);
    CompletionFreesIff(first, es, i, k);
  }
}
