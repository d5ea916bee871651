/**
 * The mkdir-based mutex that serialises locale compiles: many processes poll for one directory,
 * and a waiter may steal a directory it judged stale. Each file-system call that changes something
 * is one step, so that processes interleave between the staleness verdict and the rename. The
 * verdict itself (reading owner.json, probing the pid, reading the mtime) is one step: no theorem
 * turns on it, because what counts is whether the lock is stale when the rename runs.
 */
module LocaleLock {
  import opened Options

  type Pid = nat
  /** One call of `acquireLock`. A process may have several calls under way. */
  type CallId = nat

  datatype Owner = Owner(pid: Pid, createdAt: nat)

  /** The directory at the lock path: who made it, its mtime, and its owner.json if present. */
  datatype LockDir = LockDir(creator: CallId, mtime: nat, owner: Option<Owner>)

  datatype Phase =
    | Polling(startedAt: nat)
    | Contended(startedAt: nat)      // mkdir reported EEXIST
    | Condemned(startedAt: nat)      // judged the lock stale, about to rename it away
    | Waiting(startedAt: nat)        // judged the lock fresh
    | Made(acquiredAt: nat)          // mkdir succeeded, owner.json not yet written
    | Holding(acquiredAt: nat)       // the release function has been handed out
    | Releasing(acquiredAt: nat)     // owner.json removed, directory still there
    | Released
    | TimedOut
    | Failed                         // writing owner.json threw

  datatype Call = Call(pid: Pid, phase: Phase)

  datatype State = State(now: nat, lock: Option<LockDir>, calls: map<CallId, Call>, dead: set<Pid>)

  datatype Limits = Limits(timeoutMs: nat, staleMs: nat)

  datatype Step =
    | Tick(ms: nat)
    | Crash(pid: Pid)
    | Start(call: CallId, pid: Pid)
    | Mkdir(call: CallId)
    | WriteOwner(call: CallId)
    | CheckStale(call: CallId)
    | Rename(call: CallId)
    | Retry(call: CallId)
    | RemoveOwner(call: CallId)
    | RemoveDir(call: CallId)

  predicate IsStale(o: Limits, s: State) {
    && s.lock.Some?
    && match s.lock.value.owner
       case Some(owner) => owner.pid in s.dead || s.now - owner.createdAt > o.staleMs
       case None => s.now - s.lock.value.mtime > o.staleMs
  }

  predicate IsLive(s: State, c: CallId) {
    c in s.calls && s.calls[c].pid !in s.dead
  }

  predicate Enabled(s: State, step: Step) {
    match step
    case Tick(_) => true
    case Crash(_) => true
    case Start(c, pid) => c !in s.calls && pid !in s.dead
    case Mkdir(c) => IsLive(s, c) && s.calls[c].phase.Polling?
    case WriteOwner(c) => IsLive(s, c) && s.calls[c].phase.Made?
    case CheckStale(c) => IsLive(s, c) && s.calls[c].phase.Contended?
    case Rename(c) => IsLive(s, c) && s.calls[c].phase.Condemned?
    case Retry(c) => IsLive(s, c) && s.calls[c].phase.Waiting?
    case RemoveOwner(c) => IsLive(s, c) && (s.calls[c].phase.Holding? || s.calls[c].phase.Releasing? || s.calls[c].phase.Released?)
    case RemoveDir(c) => IsLive(s, c) && s.calls[c].phase.Releasing?
  }

  function SetPhase(s: State, c: CallId, phase: Phase): State
    requires c in s.calls
  {
    s.(calls := s.calls[c := s.calls[c].(phase := phase)])
  }

  function Next(o: Limits, s: State, step: Step): State
    requires Enabled(s, step)
  {
    match step
    case Tick(ms) => s.(now := s.now + ms)
    case Crash(pid) => s.(dead := s.dead + {pid})
    case Start(c, pid) => s.(calls := s.calls[c := Call(pid, Polling(s.now))])
    case Mkdir(c) =>
      if s.lock.None?
      then SetPhase(s, c, Made(s.now)).(lock := Some(LockDir(c, s.now, None)))
      else SetPhase(s, c, Contended(s.calls[c].phase.startedAt))
    case WriteOwner(c) =>
      if s.lock.None? then SetPhase(s, c, Failed)
      else SetPhase(s, c, Holding(s.calls[c].phase.acquiredAt)).(
             lock := Some(s.lock.value.(mtime := s.now, owner := Some(Owner(s.calls[c].pid, s.now)))))
    case CheckStale(c) =>
      var startedAt := s.calls[c].phase.startedAt;
      SetPhase(s, c, if IsStale(o, s) then Condemned(startedAt) else Waiting(startedAt))
    case Rename(c) =>
      SetPhase(s, c, Polling(s.calls[c].phase.startedAt)).(lock := None)
    case Retry(c) =>
      var startedAt := s.calls[c].phase.startedAt;
      SetPhase(s, c, if s.now - startedAt >= o.timeoutMs then TimedOut else Polling(startedAt))
    case RemoveOwner(c) =>
      if !s.calls[c].phase.Holding? then s
      else
        var lock := if s.lock.None? then None else Some(s.lock.value.(mtime := s.now, owner := None));
        SetPhase(s, c, Releasing(s.calls[c].phase.acquiredAt)).(lock := lock)
    case RemoveDir(c) => SetPhase(s, c, Released).(lock := None)
  }

  // ----- mutual exclusion

  predicate IsInside(phase: Phase) {
    phase.Made? || phase.Holding? || phase.Releasing?
  }

  /** A live call between its successful mkdir and the end of its release. */
  predicate LiveInside(s: State, c: CallId) {
    IsLive(s, c) && IsInside(s.calls[c].phase)
  }

  ghost predicate MutuallyExclusive(s: State) {
    forall c, d :: LiveInside(s, c) && LiveInside(s, d) ==> c == d
  }

  /** `c` made the directory at the lock path, and its age is at most the time `c` has been inside. */
  ghost predicate Owns(s: State, c: CallId)
    requires c in s.calls && IsInside(s.calls[c].phase)
  {
    var phase := s.calls[c].phase;
    && s.lock.Some?
    && s.lock.value.creator == c
    && phase.acquiredAt <= s.lock.value.mtime <= s.now
    && (phase.Holding? <==> s.lock.value.owner.Some?)
    && (phase.Holding? ==> s.lock.value.owner.value.pid == s.calls[c].pid
                           && phase.acquiredAt <= s.lock.value.owner.value.createdAt)
  }

  ghost predicate Inv(s: State) {
    forall c :: LiveInside(s, c) ==> Owns(s, c)
  }

  lemma OwnersExclude(s: State)
    requires Inv(s)
    ensures MutuallyExclusive(s)
  {
    forall c, d | LiveInside(s, c) && LiveInside(s, d) ensures c == d {
      assert Owns(s, c) && Owns(s, d);
    }
  }

  /** The rename takes away the directory of a call that is alive and still inside. */
  ghost predicate Robs(s: State, step: Step) {
    step.Rename? && s.lock.Some? && LiveInside(s, s.lock.value.creator)
  }

  /** Of all steps, only a rename that robs a live holder breaks ownership. */
  lemma OnlyRobberyBreaksOwnership(o: Limits, s: State, step: Step)
    requires Inv(s) && Enabled(s, step)
    ensures Inv(Next(o, s, step)) <==> !Robs(s, step)
  {
    var s' := Next(o, s, step);
    if Robs(s, step) {
      var victim := s.lock.value.creator;
      assert Owns(s, victim);
      assert LiveInside(s', victim) && !Owns(s', victim);
    } else {
      OwnersExclude(s);
      assert step.WriteOwner? || step.RemoveOwner? || step.RemoveDir? ==> s' == s || LiveInside(s, step.call);
      forall c | LiveInside(s', c) ensures Owns(s', c) {
        if LiveInside(s, c) {
          assert Owns(s, c);
        }
      }
    }
  }

  /** A robbery is one step away from two holders: the thief's own mkdir. */
  lemma RobberyAdmitsTwo(o: Limits, s: State, step: Step)
    requires Inv(s) && Enabled(s, step) && step.Rename?
    ensures var s' := Next(o, s, step);
            Enabled(s', Mkdir(step.call))
            && (MutuallyExclusive(Next(o, s', Mkdir(step.call))) <==> !Robs(s, step))
  {
    var thief := step.call;
    var s' := Next(o, s, step);
    var s'' := Next(o, s', Mkdir(thief));
    if Robs(s, step) {
      var victim := s.lock.value.creator;
      assert victim != thief;
      assert LiveInside(s'', victim) && LiveInside(s'', thief);
    } else {
      OnlyRobberyBreaksOwnership(o, s, step);
      OnlyRobberyBreaksOwnership(o, s', Mkdir(thief));
      OwnersExclude(s'');
    }
  }

  // ----- runs

  ghost predicate Valid(o: Limits, steps: seq<Step>)
    decreases |steps|, 0
  {
    steps == [] || (
      var n := |steps| - 1;
      Valid(o, steps[..n]) && Enabled(After(o, steps[..n]), steps[n]))
  }

  /** The state after a run that starts with no lock and no call. */
  ghost function After(o: Limits, steps: seq<Step>): State
    requires Valid(o, steps)
    decreases |steps|, 1
  {
    if steps == [] then State(0, None, map[], {})
    else Next(o, After(o, steps[..|steps| - 1]), steps[|steps| - 1])
  }

  /** The verdict behind a rename is still true when the rename runs. */
  ghost predicate VerdictHolds(o: Limits, s: State, step: Step) {
    step.Rename? ==> s.lock.None? || IsStale(o, s)
  }

  /** No live call stays inside for longer than `staleMs`. */
  ghost predicate Prompt(o: Limits, s: State) {
    forall c :: LiveInside(s, c) ==> s.now - s.calls[c].phase.acquiredAt <= o.staleMs
  }

  ghost predicate Disciplined(o: Limits, steps: seq<Step>)
    requires Valid(o, steps)
  {
    steps == [] || (
      var n := |steps| - 1;
      var s := After(o, steps[..n]);
      Disciplined(o, steps[..n]) && Prompt(o, s) && VerdictHolds(o, s, steps[n]))
  }

  lemma PromptHoldersAreNotRobbed(o: Limits, s: State, step: Step)
    requires Inv(s) && Prompt(o, s) && VerdictHolds(o, s, step)
    ensures !Robs(s, step)
  {
    assert s.lock.Some? && LiveInside(s, s.lock.value.creator) ==> Owns(s, s.lock.value.creator);
  }

  lemma {:induction false} DisciplineKeepsOwnership(o: Limits, steps: seq<Step>)
    requires Valid(o, steps) && Disciplined(o, steps)
    ensures Inv(After(o, steps))
  {
    if steps != [] {
      var n := |steps| - 1;
      DisciplineKeepsOwnership(o, steps[..n]);
      PromptHoldersAreNotRobbed(o, After(o, steps[..n]), steps[n]);
      OnlyRobberyBreaksOwnership(o, After(o, steps[..n]), steps[n]);
    }
  }

  /**
   * Mutual exclusion over every interleaving in which verdicts are still true when acted on and
   * holders are prompt.
   */
  lemma MutualExclusion(o: Limits, steps: seq<Step>)
    requires Valid(o, steps) && Disciplined(o, steps)
    ensures MutuallyExclusive(After(o, steps))
  {
    DisciplineKeepsOwnership(o, steps);
    OwnersExclude(After(o, steps));
  }

  /** Every live call inside owns the directory, in every state of the run. */
  ghost predicate OwnedThroughout(o: Limits, steps: seq<Step>)
    requires Valid(o, steps)
  {
    Inv(After(o, steps)) && (steps == [] || OwnedThroughout(o, steps[..|steps| - 1]))
  }

  ghost predicate NeverRobs(o: Limits, steps: seq<Step>)
    requires Valid(o, steps)
  {
    steps == [] || (
      var n := |steps| - 1;
      NeverRobs(o, steps[..n]) && !Robs(After(o, steps[..n]), steps[n]))
  }

  /** Over whole runs, with no hypothesis: ownership holds throughout if and only if no step robs. */
  lemma {:induction false} OwnedThroughoutIffNeverRobs(o: Limits, steps: seq<Step>)
    requires Valid(o, steps)
    ensures OwnedThroughout(o, steps) <==> NeverRobs(o, steps)
    ensures NeverRobs(o, steps) ==> MutuallyExclusive(After(o, steps))
  {
    hide Inv, Robs, Next, Enabled, MutuallyExclusive;
    if steps == [] {
      assert Inv(After(o, steps)) by { NothingIsOwned(o); }
    } else {
      var n := |steps| - 1;
      OwnedThroughoutIffNeverRobs(o, steps[..n]);
      if OwnedThroughout(o, steps[..n]) {
        OnlyRobberyBreaksOwnership(o, After(o, steps[..n]), steps[n]);
      }
    }
    if OwnedThroughout(o, steps) {
      OwnersExclude(After(o, steps));
    }
  }

  lemma NothingIsOwned(o: Limits)
    ensures Valid(o, []) && Inv(After(o, []))
  {
  }

  // ----- releasing twice

  lemma {:induction false} ReleasedForGood(o: Limits, steps: seq<Step>, i: nat, c: CallId)
    requires Valid(o, steps) && i <= |steps| && Valid(o, steps[..i])
    requires c in After(o, steps[..i]).calls && After(o, steps[..i]).calls[c].phase.Released?
    ensures c in After(o, steps).calls && After(o, steps).calls[c].phase.Released?
    decreases |steps|
  {
    if i == |steps| {
      assert steps[..i] == steps;
    } else {
      var n := |steps| - 1;
      assert steps[..n][..i] == steps[..i];
      ReleasedForGood(o, steps[..n], i, c);
    }
  }

  /** Once a release has completed, calling the release function again removes nothing, ever. */
  lemma SecondReleaseRemovesNothing(o: Limits, steps: seq<Step>, i: nat, c: CallId)
    requires Valid(o, steps) && i <= |steps| && Valid(o, steps[..i])
    requires c in After(o, steps[..i]).calls && After(o, steps[..i]).calls[c].phase.Released?
    ensures !Enabled(After(o, steps), RemoveDir(c))
    ensures Enabled(After(o, steps), RemoveOwner(c)) ==>
              Next(o, After(o, steps), RemoveOwner(c)) == After(o, steps)
  {
    ReleasedForGood(o, steps, i, c);
  }

  // ----- the lock is given back, and can always be had

  lemma {:induction false} PrefixIsValid(o: Limits, steps: seq<Step>, i: nat)
    requires Valid(o, steps) && i <= |steps|
    ensures Valid(o, steps[..i])
    decreases |steps|
  {
    if i == |steps| {
      assert steps[..i] == steps;
    } else {
      assert steps[..|steps| - 1][..i] == steps[..i];
      PrefixIsValid(o, steps[..|steps| - 1], i);
    }
  }

  /** Step `i` is a mkdir of call `c` that found no directory. */
  ghost predicate Makes(o: Limits, steps: seq<Step>, i: nat, c: CallId)
    requires Valid(o, steps)
  {
    && i < |steps| && steps[i] == Mkdir(c)
    && Valid(o, steps[..i]) && After(o, steps[..i]).lock.None?
  }

  /** No rename and no end of a release has run since step `i`. */
  ghost predicate NothingRemovedSince(steps: seq<Step>, i: nat) {
    forall j :: i < j < |steps| ==> !steps[j].Rename? && !steps[j].RemoveDir?
  }

  ghost predicate MadeAndKept(o: Limits, steps: seq<Step>, c: CallId)
    requires Valid(o, steps)
  {
    exists i: nat :: Makes(o, steps, i, c) && NothingRemovedSince(steps, i)
  }

  lemma MadeAndKeptGrows(o: Limits, steps: seq<Step>, c: CallId)
    requires steps != [] && Valid(o, steps)
    ensures var n := |steps| - 1;
            MadeAndKept(o, steps, c) <==>
              || Makes(o, steps, n, c)
              || (MadeAndKept(o, steps[..n], c) && !steps[n].Rename? && !steps[n].RemoveDir?)
  {
    hide After, Makes, NothingRemovedSince;
    var n := |steps| - 1;
    var before := steps[..n];
    if MadeAndKept(o, steps, c) {
      var i: nat :| Makes(o, steps, i, c) && NothingRemovedSince(steps, i);
      MakesInPrefix(o, steps, i, c);
    }
    if MadeAndKept(o, before, c) && !steps[n].Rename? && !steps[n].RemoveDir? {
      var i: nat :| Makes(o, before, i, c) && NothingRemovedSince(before, i);
      MakesInPrefix(o, steps, i, c);
    }
    if Makes(o, steps, n, c) {
      MakesInPrefix(o, steps, n, c);
    }
  }

  lemma MakesInPrefix(o: Limits, steps: seq<Step>, i: nat, c: CallId)
    requires steps != [] && Valid(o, steps)
    ensures var n := |steps| - 1;
            && (Makes(o, steps, i, c) ==> i <= n)
            && (Makes(o, steps[..n], i, c) ==> i < n)
            && (i < n ==> (Makes(o, steps, i, c) <==> Makes(o, steps[..n], i, c)))
            && (i < n ==> (NothingRemovedSince(steps, i) <==>
                  NothingRemovedSince(steps[..n], i) && !steps[n].Rename? && !steps[n].RemoveDir?))
            && (i == n ==> NothingRemovedSince(steps, i))
  {
    hide After, Valid;
    assert Valid(o, steps[..|steps| - 1]) by { PrefixIsValid(o, steps, |steps| - 1); }
    assert i < |steps| - 1 ==> steps[..|steps| - 1][..i] == steps[..i];
  }

  /** What a step does to the directory at the lock path. */
  lemma MakerAfter(o: Limits, s: State, step: Step, c: CallId)
    requires Enabled(s, step)
    ensures var s' := Next(o, s, step);
            s'.lock.Some? && s'.lock.value.creator == c <==>
              || (step == Mkdir(c) && s.lock.None?)
              || (s.lock.Some? && s.lock.value.creator == c && !step.Rename? && !step.RemoveDir?)
  {
  }

  /**
   * In every run, a directory of call `c` is at the lock path if and only if a mkdir of `c` succeeded
   * and since then no rename and no end of a release has run.
   */
  lemma {:induction false} DirectoryIff(o: Limits, steps: seq<Step>, c: CallId)
    requires Valid(o, steps)
    ensures After(o, steps).lock.Some? && After(o, steps).lock.value.creator == c <==> MadeAndKept(o, steps, c)
  {
    hide Next, Enabled;
    if steps == [] {
      Nothing(o);
    } else {
      var n := |steps| - 1;
      DirectoryIff(o, steps[..n], c);
      MakerAfter(o, After(o, steps[..n]), steps[n], c);
      MadeAndKeptGrows(o, steps, c);
    }
  }

  /**
   * In every run in which nobody is robbed, the end of a release removes the caller's own
   * directory, and the next mkdir of any call that is polling succeeds.
   */
  lemma ReleaseFreesTheLock(o: Limits, steps: seq<Step>, c: CallId, d: CallId)
    requires Valid(o, steps) && NeverRobs(o, steps) && Enabled(After(o, steps), RemoveDir(c))
    ensures var s := After(o, steps);
            var s' := Next(o, s, RemoveDir(c));
            && s.lock.Some? && s.lock.value.creator == c && s'.lock.None?
            && (Enabled(s', Mkdir(d)) ==>
                  var s'' := Next(o, s', Mkdir(d));
                  && s''.calls[d].phase.Made?
                  && s''.lock == Some(LockDir(d, s'.now, None)))
  {
    hide After, Valid, NeverRobs;
    OwnedThroughoutIffNeverRobs(o, steps);
    assert Inv(After(o, steps)) by { OwnedNow(o, steps); }
    assert Owns(After(o, steps), c);
  }

  lemma OwnedNow(o: Limits, steps: seq<Step>)
    requires Valid(o, steps) && OwnedThroughout(o, steps)
    ensures Inv(After(o, steps))
  {
  }

  /** After every run, a live holder can release, and that leaves the path free. */
  lemma HoldersCanRelease(o: Limits, before: seq<Step>, c: CallId)
    requires Valid(o, before) && IsLive(After(o, before), c) && After(o, before).calls[c].phase.Holding?
    ensures var steps := before + [RemoveOwner(c)] + [RemoveDir(c)];
            Valid(o, steps) && After(o, steps).lock.None? && After(o, steps).calls[c].phase.Released?
  {
    hide Valid, After;
    Extend(o, before, RemoveOwner(c));
    Extend(o, before + [RemoveOwner(c)], RemoveDir(c));
  }

  /** Directories and owner files never date from the future. */
  ghost predicate Timely(s: State) {
    s.lock.Some? ==>
      && s.lock.value.mtime <= s.now
      && (s.lock.value.owner.Some? ==> s.lock.value.owner.value.createdAt <= s.now)
  }

  lemma StepIsTimely(o: Limits, s: State, step: Step)
    requires Timely(s) && Enabled(s, step)
    ensures Timely(Next(o, s, step))
  {
  }

  lemma {:induction false} RunIsTimely(o: Limits, steps: seq<Step>)
    requires Valid(o, steps)
    ensures Timely(After(o, steps))
  {
    hide Next, Enabled;
    if steps == [] {
      Nothing(o);
    } else {
      var n := |steps| - 1;
      RunIsTimely(o, steps[..n]);
      StepIsTimely(o, After(o, steps[..n]), steps[n]);
    }
  }

  /** A call that polls while the path is free takes the lock and writes itself down as its owner. */
  lemma TakesWhenFree(o: Limits, before: seq<Step>, c: CallId) returns (steps: seq<Step>)
    requires Valid(o, before)
    requires var s := After(o, before); IsLive(s, c) && s.calls[c].phase.Polling? && s.lock.None?
    ensures Valid(o, steps) && steps == before + [Mkdir(c)] + [WriteOwner(c)]
    ensures var s := After(o, before);
            After(o, steps) == SetPhase(s, c, Holding(s.now)).(
              lock := Some(LockDir(c, s.now, Some(Owner(s.calls[c].pid, s.now)))))
  {
    hide Valid, After;
    Extend(o, before, Mkdir(c));
    steps := before + [Mkdir(c)];
    Extend(o, steps, WriteOwner(c));
    steps := steps + [WriteOwner(c)];
    var s := After(o, before);
    assert After(o, steps).calls == s.calls[c := s.calls[c].(phase := Holding(s.now))];
  }

  /** A call that polls while the lock is stale condemns it, renames it away and takes the lock. */
  lemma StealsWhenStale(o: Limits, before: seq<Step>, c: CallId) returns (steps: seq<Step>)
    requires Valid(o, before)
    requires var s := After(o, before); IsLive(s, c) && s.calls[c].phase.Polling? && IsStale(o, s)
    ensures Valid(o, steps)
    ensures steps == before + [Mkdir(c)] + [CheckStale(c)] + [Rename(c)] + [Mkdir(c)] + [WriteOwner(c)]
    ensures var s := After(o, before);
            After(o, steps) == SetPhase(s, c, Holding(s.now)).(
              lock := Some(LockDir(c, s.now, Some(Owner(s.calls[c].pid, s.now)))))
  {
    hide Valid, After;
    var s := After(o, before);
    Extend(o, before, Mkdir(c));
    steps := before + [Mkdir(c)];
    Extend(o, steps, CheckStale(c));
    steps := steps + [CheckStale(c)];
    Extend(o, steps, Rename(c));
    steps := steps + [Rename(c)];
    assert After(o, steps).calls == s.calls;
    steps := TakesWhenFree(o, steps, c);
  }

  /**
   * The lock is never lost: after every run, whoever died holding it, a live call that is polling
   * can go on to hold it. It waits only if the path is taken by an owner that is not dead, and then
   * no longer than it takes the directory to go stale.
   */
  lemma AlwaysAcquirable(o: Limits, before: seq<Step>, c: CallId) returns (steps: seq<Step>)
    requires Valid(o, before) && IsLive(After(o, before), c) && After(o, before).calls[c].phase.Polling?
    ensures Valid(o, steps) && before <= steps
    ensures var s := After(o, steps);
            && LiveInside(s, c) && s.calls[c].phase.Holding?
            && s.lock.Some? && s.lock.value.creator == c && s.lock.value.owner == Some(Owner(s.calls[c].pid, s.now))
    ensures var was := After(o, before);
            was.lock.None? || (was.lock.value.owner.Some? && was.lock.value.owner.value.pid in was.dead) ==>
              After(o, steps).now == was.now
    ensures After(o, steps).now <= After(o, before).now + o.staleMs + 1
  {
    hide Valid, After;
    var s := After(o, before);
    steps := before;
    if s.lock.None? {
      steps := TakesWhenFree(o, steps, c);
    } else {
      if !IsStale(o, s) {
        RunIsTimely(o, before);
        Extend(o, steps, Tick(o.staleMs + 1));
        steps := steps + [Tick(o.staleMs + 1)];
      }
      steps := StealsWhenStale(o, steps, c);
    }
  }

  // ----- giving up

  /** The start time that a waiting call goes by. */
  ghost predicate StartedAt(s: State, c: CallId, time: nat) {
    c in s.calls && (
      match s.calls[c].phase
      case Polling(t) => t == time
      case Contended(t) => t == time
      case Condemned(t) => t == time
      case Waiting(t) => t == time
      case _ => true)
  }

  lemma StepKeepsStart(o: Limits, s: State, step: Step, c: CallId, time: nat)
    requires Enabled(s, step) && StartedAt(s, c, time)
    ensures StartedAt(Next(o, s, step), c, time)
  {
  }

  lemma {:induction false} StartIsKept(o: Limits, steps: seq<Step>, i: nat, c: CallId)
    requires Valid(o, steps) && i < |steps| && steps[i].Start? && steps[i].call == c && Valid(o, steps[..i])
    ensures StartedAt(After(o, steps), c, After(o, steps[..i]).now)
    decreases |steps|
  {
    hide Next, Enabled, StartedAt;
    var n := |steps| - 1;
    if i == n {
      StartsNow(o, After(o, steps[..n]), steps[n]);
    } else {
      assert steps[..n][..i] == steps[..i];
      StartIsKept(o, steps[..n], i, c);
      StepKeepsStart(o, After(o, steps[..n]), steps[n], c, After(o, steps[..i]).now);
    }
  }

  lemma StartsNow(o: Limits, s: State, step: Step)
    requires Enabled(s, step) && step.Start?
    ensures StartedAt(Next(o, s, step), step.call, s.now)
  {
  }

  /** A call that polls while a fresh lock is held comes to wait, and then tries again or gives up. */
  lemma WaitsWhileFresh(o: Limits, before: seq<Step>, c: CallId)
    requires Valid(o, before)
    requires var s := After(o, before); IsLive(s, c) && s.calls[c].phase.Polling? && s.lock.Some? && !IsStale(o, s)
    ensures var steps := before + [Mkdir(c)] + [CheckStale(c)];
            && Valid(o, steps) && Enabled(After(o, steps), Retry(c))
            && After(o, steps).lock == After(o, before).lock
  {
    hide Valid, After;
    Extend(o, before, Mkdir(c));
    Extend(o, before + [Mkdir(c)], CheckStale(c));
  }

  /** A call that has judged the lock fresh gives up if and only if `timeoutMs` have passed since it started. */
  lemma GivesUpIff(o: Limits, steps: seq<Step>, i: nat, c: CallId)
    requires Valid(o, steps) && i < |steps| && steps[i].Start? && steps[i].call == c
    requires Enabled(After(o, steps), Retry(c))
    ensures Valid(o, steps[..i])
    ensures var phase := Next(o, After(o, steps), Retry(c)).calls[c].phase;
            if After(o, steps).now - After(o, steps[..i]).now >= o.timeoutMs then phase.TimedOut? else phase.Polling?
  {
    hide After, Valid;
    PrefixIsValid(o, steps, i);
    StartIsKept(o, steps, i, c);
  }

  // ----- both hypotheses are needed

  lemma Extend(o: Limits, steps: seq<Step>, step: Step)
    requires Valid(o, steps) && Enabled(After(o, steps), step)
    ensures Valid(o, steps + [step]) && After(o, steps + [step]) == Next(o, After(o, steps), step)
  {
    assert (steps + [step])[..|steps|] == steps;
  }

  lemma Nothing(o: Limits)
    ensures Valid(o, []) && After(o, []) == State(0, None, map[], {})
  {
  }

  /** Call 0 of process 10 takes the free lock. */
  lemma TakesFreeLock(o: Limits) returns (steps: seq<Step>)
    ensures Valid(o, steps)
    ensures After(o, steps) == State(0, Some(LockDir(0, 0, Some(Owner(10, 0)))), map[0 := Call(10, Holding(0))], {})
  {
    Nothing(o);
    steps := [];
    Extend(o, steps, Start(0, 10));
    steps := steps + [Start(0, 10)];
    Extend(o, steps, Mkdir(0));
    steps := steps + [Mkdir(0)];
    Extend(o, steps, WriteOwner(0));
    steps := steps + [WriteOwner(0)];
  }

  /** Call `c` of process `pid` starts, finds the lock taken and condemns it as stale. */
  lemma Condemns(o: Limits, before: seq<Step>, c: CallId, pid: Pid) returns (steps: seq<Step>)
    requires Valid(o, before)
    requires var s := After(o, before); IsStale(o, s) && c !in s.calls && pid !in s.dead
    ensures Valid(o, steps)
    ensures var s := After(o, before);
            After(o, steps) == s.(calls := s.calls[c := Call(pid, Condemned(s.now))])
  {
    steps := before;
    Extend(o, steps, Start(c, pid));
    steps := steps + [Start(c, pid)];
    Extend(o, steps, Mkdir(c));
    steps := steps + [Mkdir(c)];
    Extend(o, steps, CheckStale(c));
    steps := steps + [CheckStale(c)];
    assert After(o, steps).calls == After(o, before).calls[c := Call(pid, Condemned(After(o, before).now))];
  }

  lemma Steals(o: Limits, before: seq<Step>, c: CallId) returns (steps: seq<Step>)
    requires Valid(o, before) && IsLive(After(o, before), c) && After(o, before).calls[c].phase.Condemned?
    ensures Valid(o, steps)
    ensures var s := After(o, before);
            After(o, steps) == SetPhase(s, c, Made(s.now)).(lock := Some(LockDir(c, s.now, None)))
  {
    steps := before;
    Extend(o, steps, Rename(c));
    steps := steps + [Rename(c)];
    Extend(o, steps, Mkdir(c));
    steps := steps + [Mkdir(c)];
    assert After(o, steps).calls == SetPhase(After(o, before), c, Made(After(o, before).now)).calls;
  }

  /**
   * Two waiters condemn the same dead owner's lock; the second renames away the lock that the
   * first has meanwhile taken. Time never passes, so every holder is prompt.
   */
  lemma StaleVerdictLetsTwoIn(o: Limits) returns (steps: seq<Step>)
    ensures Valid(o, steps) && After(o, steps).now == 0
    ensures LiveInside(After(o, steps), 1) && LiveInside(After(o, steps), 2)
  {
    steps := TakesFreeLock(o);
    Extend(o, steps, Crash(10));
    steps := steps + [Crash(10)];
    steps := Condemns(o, steps, 1, 11);
    steps := Condemns(o, steps, 2, 12);
    steps := Steals(o, steps, 1);
    steps := Steals(o, steps, 2);
  }

  /** A holder that outlives `staleMs` is robbed although the verdict is true when acted on. */
  lemma SlowHolderLetsTwoIn(o: Limits) returns (before: seq<Step>, steps: seq<Step>)
    ensures Valid(o, before) && IsStale(o, After(o, before)) && Enabled(After(o, before), Rename(1))
    ensures Valid(o, steps) && steps == before + [Rename(1)] + [Mkdir(1)]
    ensures LiveInside(After(o, steps), 0) && LiveInside(After(o, steps), 1)
  {
    before := TakesFreeLock(o);
    Extend(o, before, Tick(o.staleMs + 1));
    before := before + [Tick(o.staleMs + 1)];
    before := Condemns(o, before, 1, 11);
    Extend(o, before, Rename(1));
    Extend(o, before + [Rename(1)], Mkdir(1));
    steps := before + [Rename(1)] + [Mkdir(1)];
  }
}
