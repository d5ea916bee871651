/**
 * Platform role changes as database transactions that interleave statement by statement. A
 * transaction's writes become visible when it commits; the advisory lock is held from the first
 * statement to the end of the transaction, the subject's row from its `select … for update` on, and
 * the deleted session rows from the delete statement on. Inserting a session locks its user's row
 * through the foreign key, so a login waits for a role change of the same user.
 */
module RoleChange {
  import opened Options
  import Strings

  type UserId = string
  type TxId = nat
  type SessionId = nat
  type Role = string

  const ADMIN: Role := "admin"
  const USER: Role := "user"

  datatype Input = Input(actor: UserId, subject: UserId, toRole: Role, reason: string)

  datatype Refusal =
    | ReasonRequired | InvalidRole | UserNotFound | RoleUnchanged | LastAdminRequired
    | RolledBack  // a statement failed or the connection was lost

  datatype AuditRow = AuditRow(id: nat, actor: UserId, subject: UserId, fromRole: Role, toRole: Role, reason: string)

  /** How far a transaction has come; `fromRole` is what it read under the lock. */
  datatype Progress =
    | Ready
    | Locked
    | Read(fromRole: Role)
    | Checked(fromRole: Role)
    | Updated(fromRole: Role)
    | Audited(fromRole: Role, row: AuditRow)
    | Swept(fromRole: Role, row: AuditRow, deleted: set<SessionId>)
    | Committed(row: AuditRow, deleted: set<SessionId>)
    | Refused(why: Refusal)

  datatype Tx = Tx(input: Input, at: Progress)

  /** `origin` remembers the role with which each user was first stored. */
  datatype State = State(
    users: map<UserId, Option<Role>>,
    origin: map<UserId, Option<Role>>,
    audit: seq<AuditRow>,
    sessions: map<SessionId, UserId>,
    lockHolder: Option<TxId>,
    txs: map<TxId, Tx>)

  datatype Step =
    | Submit(tx: TxId, input: Input)
    | Lock(tx: TxId)
    | ReadSubject(tx: TxId)
    | CheckOthers(tx: TxId)
    | Update(tx: TxId)
    | Audit(tx: TxId, id: nat)
    | Sweep(tx: TxId)
    | Commit(tx: TxId)
    | Abort(tx: TxId)
    | SignUp(user: UserId, role: Option<Role>)
    | Login(session: SessionId, user: UserId)
    | Logout(session: SessionId)
    | EnterUnlocked(tx: TxId)  // a writer that does not go through the advisory lock
    | LoginUnchecked(session: SessionId, user: UserId)  // an insert without the foreign key's row lock

  function RoleOf(stored: Option<Role>): Role {
    if stored.Some? then stored.value else USER
  }

  predicate IsPlatformRole(role: Role) { role == ADMIN || role == USER }

  /** The trimmed reason, or nothing when it is blank. */
  function NormalizeReason(reason: string): Option<string> {
    var trimmed := Strings.Trim(reason);
    if trimmed == "" then None else Some(trimmed)
  }

  predicate IsDemotion(input: Input, fromRole: Role) { fromRole == ADMIN && input.toRole != ADMIN }

  predicate HasOtherAdmin(users: map<UserId, Option<Role>>, subject: UserId) {
    exists u :: u in users && u != subject && users[u] == Some(ADMIN)
  }

  predicate HasAdmin(users: map<UserId, Option<Role>>) {
    exists u :: u in users && users[u] == Some(ADMIN)
  }

  function Entry(input: Input): Progress {
    if NormalizeReason(input.reason).None? then Refused(ReasonRequired)
    else if !IsPlatformRole(input.toRole) then Refused(InvalidRole)
    else Ready
  }

  predicate IsOpen(p: Progress) { !p.Committed? && !p.Refused? }

  /** The phases in which a transaction holds its subject's row. */
  predicate HoldsRow(p: Progress) { p.Read? || p.Checked? || p.Updated? || p.Audited? || p.Swept? }

  predicate RowHeld(s: State, u: UserId) {
    exists t :: t in s.txs && HoldsRow(s.txs[t].at) && s.txs[t].input.subject == u
  }

  predicate SessionHeld(s: State, id: SessionId) {
    exists t :: t in s.txs && s.txs[t].at.Swept? && id in s.txs[t].at.deleted
  }

  /** A step of somebody other than a role change. */
  predicate IsOutside(step: Step) { step.SignUp? || step.Login? || step.Logout? || step.LoginUnchecked? }

  predicate Enabled(s: State, step: Step) {
    match step
    case Submit(t, _) => t !in s.txs
    case Lock(t) => t in s.txs && s.txs[t].at.Ready? && s.lockHolder.None?
    case EnterUnlocked(t) => t in s.txs && s.txs[t].at.Ready?
    case ReadSubject(t) => t in s.txs && s.txs[t].at.Locked? && !RowHeld(s, s.txs[t].input.subject)
    case CheckOthers(t) => t in s.txs && s.txs[t].at.Read?
    case Update(t) => t in s.txs && s.txs[t].at.Checked?
    case Audit(t, _) => t in s.txs && s.txs[t].at.Updated?
    case Sweep(t) => t in s.txs && s.txs[t].at.Audited?
    case Commit(t) => t in s.txs && s.txs[t].at.Swept?
    case Abort(t) => t in s.txs && IsOpen(s.txs[t].at)
    case SignUp(u, _) => u !in s.users
    case Login(session, u) => session !in s.sessions && u in s.users && !RowHeld(s, u)
    case Logout(session) => session in s.sessions && !SessionHeld(s, session)
    case LoginUnchecked(session, u) => session !in s.sessions && u in s.users
  }

  function Move(s: State, t: TxId, at: Progress): State
    requires t in s.txs
  {
    s.(txs := s.txs[t := s.txs[t].(at := at)])
  }

  /** Ends a transaction without effect, giving the lock back if it was held. */
  function RollBack(s: State, t: TxId, why: Refusal): State
    requires t in s.txs
  {
    Move(s, t, Refused(why)).(lockHolder := if s.lockHolder == Some(t) then None else s.lockHolder)
  }

  function Next(s: State, step: Step): State
    requires Enabled(s, step)
  {
    match step
    case Submit(t, input) => s.(txs := s.txs[t := Tx(input, Entry(input))])
    case Lock(t) => Move(s, t, Locked).(lockHolder := Some(t))
    case EnterUnlocked(t) => Move(s, t, Locked)
    case ReadSubject(t) =>
      var input := s.txs[t].input;
      if input.subject !in s.users then RollBack(s, t, UserNotFound)
      else
        var fromRole := RoleOf(s.users[input.subject]);
        if fromRole == input.toRole then RollBack(s, t, RoleUnchanged) else Move(s, t, Read(fromRole))
    case CheckOthers(t) =>
      var input, fromRole := s.txs[t].input, s.txs[t].at.fromRole;
      if IsDemotion(input, fromRole) && !HasOtherAdmin(s.users, input.subject)
      then RollBack(s, t, LastAdminRequired)
      else Move(s, t, Checked(fromRole))
    case Update(t) => Move(s, t, Updated(s.txs[t].at.fromRole))
    case Audit(t, id) =>
      var input, fromRole := s.txs[t].input, s.txs[t].at.fromRole;
      Move(s, t, Audited(fromRole, AuditRow(id, input.actor, input.subject, fromRole, input.toRole, Strings.Trim(input.reason))))
    case Sweep(t) =>
      var at := s.txs[t].at;
      Move(s, t, Swept(at.fromRole, at.row, set id | id in s.sessions && s.sessions[id] == s.txs[t].input.subject))
    case Commit(t) =>
      var input, at := s.txs[t].input, s.txs[t].at;
      Move(s, t, Committed(at.row, at.deleted)).(
        users := s.users[input.subject := Some(input.toRole)],
        audit := s.audit + [at.row],
        sessions := s.sessions - at.deleted,
        lockHolder := if s.lockHolder == Some(t) then None else s.lockHolder)
    case Abort(t) => RollBack(s, t, RolledBack)
    case SignUp(u, role) => s.(users := s.users[u := role], origin := s.origin[u := role])
    case Login(session, u) => s.(sessions := s.sessions[session := u])
    case Logout(session) => s.(sessions := s.sessions - {session})
    case LoginUnchecked(session, u) => s.(sessions := s.sessions[session := u])
  }

  // ----- replaying the audit trail

  /** The role of `u` according to its first role and the audit rows, oldest first. */
  function Replayed(origin: map<UserId, Option<Role>>, audit: seq<AuditRow>, u: UserId): Role
    requires u in origin
  {
    if audit == [] then RoleOf(origin[u])
    else
      var last := audit[|audit| - 1];
      if last.subject == u then last.toRole else Replayed(origin, audit[..|audit| - 1], u)
  }

  /** Every row starts from the role that the earlier rows lead to, and changes it. */
  ghost predicate Chains(origin: map<UserId, Option<Role>>, audit: seq<AuditRow>) {
    forall i :: 0 <= i < |audit| ==> Follows(origin, audit[..i], audit[i])
  }

  /** `row` starts from the role that `audit` leads to, and really changes it. */
  ghost predicate Follows(origin: map<UserId, Option<Role>>, audit: seq<AuditRow>, row: AuditRow) {
    && row.subject in origin
    && row.fromRole == Replayed(origin, audit, row.subject)
    && row.fromRole != row.toRole
    && IsPlatformRole(row.toRole)
    && row.reason != ""
  }

  ghost predicate Replays(s: State) {
    && s.origin.Keys == s.users.Keys
    && Chains(s.origin, s.audit)
    && forall u :: u in s.users ==> RoleOf(s.users[u]) == Replayed(s.origin, s.audit, u)
  }

  lemma {:induction false} ReplayIgnoresNewUser(origin: map<UserId, Option<Role>>, audit: seq<AuditRow>, u: UserId, added: UserId, role: Option<Role>)
    requires u in origin && u != added
    ensures Replayed(origin[added := role], audit, u) == Replayed(origin, audit, u)
  {
    if audit != [] {
      ReplayIgnoresNewUser(origin, audit[..|audit| - 1], u, added, role);
    }
  }

  lemma {:induction false} ReplayOfUntouched(origin: map<UserId, Option<Role>>, audit: seq<AuditRow>, u: UserId)
    requires u in origin && forall i :: 0 <= i < |audit| ==> audit[i].subject != u
    ensures Replayed(origin, audit, u) == RoleOf(origin[u])
  {
    if audit != [] {
      ReplayOfUntouched(origin, audit[..|audit| - 1], u);
    }
  }

  // ----- the invariant

  predicate InCriticalSection(p: Progress) {
    p.Locked? || p.Read? || p.Checked? || p.Updated? || p.Audited? || p.Swept?
  }

  /** The subject's role has been read and not changed since. */
  ghost predicate ReadHolds(s: State, tx: Tx) {
    tx.at.Read? || tx.at.Checked? || tx.at.Updated? || tx.at.Audited? || tx.at.Swept? ==>
      && tx.input.subject in s.users
      && tx.at.fromRole == RoleOf(s.users[tx.input.subject])
      && tx.at.fromRole != tx.input.toRole
  }

  /** The last-admin check has passed and its verdict still stands. */
  ghost predicate CheckHolds(s: State, tx: Tx) {
    && ((tx.at.Checked? || tx.at.Updated? || tx.at.Audited? || tx.at.Swept?) && IsDemotion(tx.input, tx.at.fromRole) ==>
          HasOtherAdmin(s.users, tx.input.subject))
    && (tx.at.Audited? || tx.at.Swept? ==>
          && tx.at.row.actor == tx.input.actor && tx.at.row.subject == tx.input.subject
          && tx.at.row.fromRole == tx.at.fromRole && tx.at.row.toRole == tx.input.toRole
          && Some(tx.at.row.reason) == NormalizeReason(tx.input.reason))
  }

  ghost predicate Admitted(tx: Tx) {
    tx.at.Refused? || (NormalizeReason(tx.input.reason).Some? && IsPlatformRole(tx.input.toRole))
  }

  ghost predicate Serialized(s: State) {
    && (forall t :: t in s.txs && InCriticalSection(s.txs[t].at) ==> s.lockHolder == Some(t))
    && (forall t :: t in s.txs ==> Admitted(s.txs[t]) && ReadHolds(s, s.txs[t]) && CheckHolds(s, s.txs[t]))
  }

  ghost predicate Inv(s: State) {
    Serialized(s) && HasAdmin(s.users) && Replays(s)
  }

  // ----- preservation

  lemma CommitKeepsAdmin(s: State, t: TxId)
    requires Serialized(s) && HasAdmin(s.users) && Enabled(s, Commit(t))
    ensures HasAdmin(Next(s, Commit(t)).users)
  {
    var tx := s.txs[t];
    assert ReadHolds(s, tx) && CheckHolds(s, tx);
    var users' := s.users[tx.input.subject := Some(tx.input.toRole)];
    if IsDemotion(tx.input, tx.at.fromRole) {
      var u :| u in s.users && u != tx.input.subject && s.users[u] == Some(ADMIN);
      assert users'[u] == Some(ADMIN);
    } else {
      var u :| u in s.users && s.users[u] == Some(ADMIN);
      assert users'[u] == Some(ADMIN);
    }
  }

  lemma CommitRowFollows(s: State, t: TxId)
    requires Serialized(s) && Replays(s) && Enabled(s, Commit(t))
    ensures var row := s.txs[t].at.row;
            Follows(s.origin, s.audit, row) && row.subject == s.txs[t].input.subject && row.toRole == s.txs[t].input.toRole
  {
    hide Chains, Replayed;
    var tx := s.txs[t];
    assert Admitted(tx) && ReadHolds(s, tx) && CheckHolds(s, tx);
  }

  lemma AppendRowChains(origin: map<UserId, Option<Role>>, audit: seq<AuditRow>, row: AuditRow)
    requires Chains(origin, audit) && Follows(origin, audit, row)
    ensures Chains(origin, audit + [row])
  {
    hide Replayed;
    var audit' := audit + [row];
    forall i | 0 <= i < |audit'| ensures Follows(origin, audit'[..i], audit'[i]) {
      if i < |audit| {
        assert audit'[i] == audit[i] && audit'[..i] == audit[..i];
      } else {
        assert audit'[..i] == audit;
      }
    }
  }

  lemma AppendRowReplays(origin: map<UserId, Option<Role>>, audit: seq<AuditRow>, row: AuditRow, u: UserId)
    requires u in origin
    ensures Replayed(origin, audit + [row], u) == if row.subject == u then row.toRole else Replayed(origin, audit, u)
  {
    assert (audit + [row])[..|audit|] == audit;
  }

  lemma CommitKeepsReplays(s: State, t: TxId)
    requires Serialized(s) && Replays(s) && Enabled(s, Commit(t))
    ensures Replays(Next(s, Commit(t)))
  {
    hide Serialized, Replayed, Chains;
    var s', row := Next(s, Commit(t)), s.txs[t].at.row;
    CommitRowFollows(s, t);
    AppendRowChains(s.origin, s.audit, row);
    forall u | u in s'.users ensures RoleOf(s'.users[u]) == Replayed(s'.origin, s'.audit, u) {
      AppendRowReplays(s.origin, s.audit, row, u);
    }
  }

  lemma SignUpKeepsReplays(s: State, u: UserId, role: Option<Role>)
    requires Replays(s) && u !in s.users
    ensures Replays(Next(s, SignUp(u, role)))
  {
    var s' := Next(s, SignUp(u, role));
    assert forall i :: 0 <= i < |s.audit| ==> Follows(s.origin, s.audit[..i], s.audit[i]);
    ReplayOfUntouched(s'.origin, s.audit, u);
    forall v | v in s.users ensures Replayed(s'.origin, s.audit, v) == Replayed(s.origin, s.audit, v) {
      ReplayIgnoresNewUser(s.origin, s.audit, v, u, role);
    }
    forall i | 0 <= i < |s.audit| ensures Follows(s'.origin, s.audit[..i], s.audit[i]) {
      assert Follows(s.origin, s.audit[..i], s.audit[i]);
      ReplayIgnoresNewUser(s.origin, s.audit[..i], s.audit[i].subject, u, role);
    }
  }

  lemma SignUpKeepsAdmins(users: map<UserId, Option<Role>>, u: UserId, role: Option<Role>)
    requires u !in users
    ensures HasAdmin(users) ==> HasAdmin(users[u := role])
    ensures forall subject :: HasOtherAdmin(users, subject) ==> HasOtherAdmin(users[u := role], subject)
  {
    if HasAdmin(users) {
      var v :| v in users && users[v] == Some(ADMIN);
      assert users[u := role][v] == Some(ADMIN);
    }
    forall subject | HasOtherAdmin(users, subject) ensures HasOtherAdmin(users[u := role], subject) {
      var v :| v in users && v != subject && users[v] == Some(ADMIN);
      assert users[u := role][v] == Some(ADMIN);
    }
  }

  ghost predicate TxOk(s: State, t: TxId) {
    t in s.txs ==>
    && (InCriticalSection(s.txs[t].at) ==> s.lockHolder == Some(t))
    && Admitted(s.txs[t]) && ReadHolds(s, s.txs[t]) && CheckHolds(s, s.txs[t])
  }

  /** A transaction that the step does not belong to. */
  lemma BystanderStaysOk(s: State, step: Step, t: TxId)
    requires Serialized(s) && Enabled(s, step) && !step.EnterUnlocked?
    requires t in s.txs && (IsOutside(step) || step.tx != t)
    ensures TxOk(Next(s, step), t)
  {
    hide HasOtherAdmin, NormalizeReason, IsPlatformRole, Next;
    assert TxOk(s, t);
    var s' := Next(s, step);
    BystanderIsUntouched(s, step, t);
    UsersAfter(s, step);
    if step.SignUp? {
      SignUpKeepsAdmins(s.users, step.user, step.role);
    } else if step.Commit? {
      assert TxOk(s, step.tx);
      assert !InCriticalSection(s.txs[t].at);
    } else if step.Lock? {
      assert !InCriticalSection(s.txs[t].at);
    }
  }

  lemma BystanderIsUntouched(s: State, step: Step, t: TxId)
    requires Enabled(s, step) && !step.EnterUnlocked?
    requires t in s.txs && (IsOutside(step) || step.tx != t)
    ensures var s' := Next(s, step);
            && t in s'.txs && s'.txs[t] == s.txs[t]
            && (s.lockHolder == Some(t) ==> s'.lockHolder == Some(t))
  {
    hide HasOtherAdmin, Entry, IsDemotion, Strings.Trim, RoleOf, IsOpen, RowHeld, SessionHeld;
  }

  lemma UsersAfter(s: State, step: Step)
    requires Enabled(s, step)
    ensures step.SignUp? ==> Next(s, step).users == s.users[step.user := step.role]
    ensures !step.SignUp? && !step.Commit? ==> Next(s, step).users == s.users
  {
    hide HasOtherAdmin, Entry, IsDemotion, Strings.Trim, RoleOf, IsOpen, RowHeld, SessionHeld;
  }

  lemma ActorStaysOk(s: State, step: Step, t: TxId)
    requires Serialized(s) && Enabled(s, step) && !step.EnterUnlocked?
    requires !IsOutside(step) && step.tx == t
    ensures TxOk(Next(s, step), t)
  {
    hide HasOtherAdmin, Strings.Trim;
    assert t in s.txs ==> TxOk(s, t);
  }

  lemma StepKeepsSerialized(s: State, step: Step)
    requires Serialized(s) && Enabled(s, step) && !step.EnterUnlocked?
    ensures Serialized(Next(s, step))
  {
    hide Serialized, Next, Enabled, TxOk;
    var s' := Next(s, step);
    forall t | t in s'.txs ensures TxOk(s', t) {
      if IsOutside(step) || step.tx != t {
        BystanderWasThere(s, step, t);
        BystanderStaysOk(s, step, t);
      } else {
        ActorStaysOk(s, step, t);
      }
    }
    SerializedIfEachIsOk(s');
  }

  lemma BystanderWasThere(s: State, step: Step, t: TxId)
    requires Enabled(s, step) && t in Next(s, step).txs
    requires IsOutside(step) || step.tx != t
    ensures t in s.txs
  {
    hide HasOtherAdmin, NormalizeReason, IsPlatformRole;
  }

  lemma SerializedIfEachIsOk(s: State)
    requires forall t :: t in s.txs ==> TxOk(s, t)
    ensures Serialized(s)
  {
    hide Admitted, ReadHolds, CheckHolds;
    forall t | t in s.txs
      ensures (InCriticalSection(s.txs[t].at) ==> s.lockHolder == Some(t))
      ensures Admitted(s.txs[t]) && ReadHolds(s, s.txs[t]) && CheckHolds(s, s.txs[t])
    {
      assert TxOk(s, t);
    }
  }

  lemma StepKeepsInv(s: State, step: Step)
    requires Inv(s) && Enabled(s, step) && !step.EnterUnlocked?
    ensures Inv(Next(s, step))
  {
    hide Serialized, HasAdmin, Replayed, Chains;
    StepKeepsSerialized(s, step);
    if step.Commit? {
      CommitKeepsAdmin(s, step.tx);
      CommitKeepsReplays(s, step.tx);
    } else if step.SignUp? {
      SignUpKeepsAdmins(s.users, step.user, step.role);
      SignUpKeepsReplays(s, step.user, step.role);
    } else {
      assert Next(s, step).users == s.users && Next(s, step).origin == s.origin && Next(s, step).audit == s.audit;
    }
  }

  // ----- runs

  function Start(users: map<UserId, Option<Role>>, sessions: map<SessionId, UserId>): State {
    State(users, users, [], sessions, None, map[])
  }

  ghost predicate Valid(first: State, steps: seq<Step>)
    decreases |steps|, 0
  {
    steps == [] || (
      var n := |steps| - 1;
      Valid(first, steps[..n]) && Enabled(After(first, steps[..n]), steps[n]))
  }

  ghost function After(first: State, steps: seq<Step>): State
    requires Valid(first, steps)
    decreases |steps|, 1
  {
    if steps == [] then first else Next(After(first, steps[..|steps| - 1]), steps[|steps| - 1])
  }

  lemma {:induction false} RunKeepsInv(first: State, steps: seq<Step>)
    requires Inv(first) && Valid(first, steps)
    requires forall i :: 0 <= i < |steps| ==> !steps[i].EnterUnlocked?
    ensures Inv(After(first, steps))
  {
    hide Inv, Next, Enabled;
    if steps != [] {
      var n := |steps| - 1;
      RunKeepsInv(first, steps[..n]);
      StepKeepsInv(After(first, steps[..n]), steps[n]);
    }
  }

  /**
   * In every interleaving of role changes that all take the advisory lock, at least one admin
   * remains, the audit rows form a chain, and replaying them gives the current roles.
   */
  lemma AdminRemainsAndAuditReplays(users: map<UserId, Option<Role>>, sessions: map<SessionId, UserId>, steps: seq<Step>)
    requires HasAdmin(users) && Valid(Start(users, sessions), steps)
    requires forall i :: 0 <= i < |steps| ==> !steps[i].EnterUnlocked?
    ensures var s := After(Start(users, sessions), steps);
            && HasAdmin(s.users)
            && s.origin.Keys == s.users.Keys
            && Chains(s.origin, s.audit)
            && forall u :: u in s.users ==> RoleOf(s.users[u]) == Replayed(s.origin, s.audit, u)
  {
    RunKeepsInv(Start(users, sessions), steps);
  }

  /** At most one transaction holds a user's row. */
  ghost predicate OneHolder(s: State) {
    forall t, t' ::
      (&& t in s.txs && t' in s.txs && HoldsRow(s.txs[t].at) && HoldsRow(s.txs[t'].at)
       && s.txs[t].input.subject == s.txs[t'].input.subject) ==> t == t'
  }

  /** What a delete statement saw is still all of its subject's sessions. */
  ghost predicate SweptAll(s: State, t: TxId) {
    t in s.txs && s.txs[t].at.Swept? ==>
      forall id :: id in s.txs[t].at.deleted <==> id in s.sessions && s.sessions[id] == s.txs[t].input.subject
  }

  ghost predicate RowsInv(s: State) {
    OneHolder(s) && forall t :: SweptAll(s, t)
  }

  /** A transaction comes to hold a row only by reading it, and only when nobody holds it. */
  lemma HoldersOf(s: State, step: Step, t: TxId)
    requires Enabled(s, step) && t in Next(s, step).txs && HoldsRow(Next(s, step).txs[t].at)
    ensures t in s.txs && Next(s, step).txs[t].input == s.txs[t].input
    ensures HoldsRow(s.txs[t].at) || (step == ReadSubject(t) && !RowHeld(s, s.txs[t].input.subject))
  {
    hide HasOtherAdmin, Entry, IsDemotion, Strings.Trim, RoleOf, RowHeld, SessionHeld;
    if step.Submit? {
      EntryHoldsNothing(step.input);
    }
  }

  lemma EntryHoldsNothing(input: Input)
    ensures !HoldsRow(Entry(input))
  {
    hide NormalizeReason, IsPlatformRole;
  }

  lemma StepKeepsOneHolder(s: State, step: Step)
    requires OneHolder(s) && Enabled(s, step)
    ensures OneHolder(Next(s, step))
  {
    hide Next, Enabled, HoldsRow;
    var s' := Next(s, step);
    forall t, t' | t in s'.txs && t' in s'.txs && HoldsRow(s'.txs[t].at) && HoldsRow(s'.txs[t'].at)
                   && s'.txs[t].input.subject == s'.txs[t'].input.subject
      ensures t == t'
    {
      HoldersOf(s, step, t);
      HoldersOf(s, step, t');
    }
  }

  lemma SweepSees(s: State, t: TxId)
    requires Enabled(s, Sweep(t))
    ensures SweptAll(Next(s, Sweep(t)), t)
  {
  }

  lemma SweptBefore(s: State, step: Step, t: TxId)
    requires Enabled(s, step) && t in Next(s, step).txs && Next(s, step).txs[t].at.Swept? && step != Sweep(t)
    ensures t in s.txs && Next(s, step).txs[t] == s.txs[t]
  {
    hide HasOtherAdmin, IsDemotion, Strings.Trim, RoleOf, RowHeld, SessionHeld, NormalizeReason, IsPlatformRole;
  }

  /** Which sessions a step touches. */
  lemma SessionsAfter(s: State, step: Step)
    requires Enabled(s, step)
    ensures Next(s, step).sessions ==
              match step
              case Login(session, u) => s.sessions[session := u]
              case LoginUnchecked(session, u) => s.sessions[session := u]
              case Logout(session) => s.sessions - {session}
              case Commit(t) => s.sessions - s.txs[t].at.deleted
              case _ => s.sessions
  {
    hide HasOtherAdmin, IsDemotion, Strings.Trim, RoleOf, RowHeld, SessionHeld, Entry;
  }

  /** Another user's sessions may come and go. */
  lemma SweptAllElsewhere(s: State, s': State, t: TxId)
    requires SweptAll(s, t) && t in s.txs && t in s'.txs && s'.txs[t] == s.txs[t]
    requires forall id :: (id in s.sessions && s.sessions[id] == s.txs[t].input.subject)
                     <==> (id in s'.sessions && s'.sessions[id] == s.txs[t].input.subject)
    ensures SweptAll(s', t)
  {
  }

  lemma StepKeepsSweptAll(s: State, step: Step, t: TxId)
    requires RowsInv(s) && Enabled(s, step) && !step.LoginUnchecked?
    ensures SweptAll(Next(s, step), t)
  {
    hide Next, Enabled;
    var s' := Next(s, step);
    if t in s'.txs && s'.txs[t].at.Swept? {
      if step == Sweep(t) {
        SweepSees(s, t);
      } else {
        SweptBefore(s, step, t);
        SubjectsSessionsStay(s, step, t);
        SweptAllElsewhere(s, s', t);
      }
    }
  }

  /** The row locks keep a subject's sessions as they are between its delete statement and its commit. */
  lemma SubjectsSessionsStay(s: State, step: Step, t: TxId)
    requires RowsInv(s) && Enabled(s, step) && !step.LoginUnchecked? && step != Sweep(t)
    requires t in s.txs && s.txs[t].at.Swept? && t in Next(s, step).txs && Next(s, step).txs[t] == s.txs[t]
    ensures var u, now := s.txs[t].input.subject, Next(s, step).sessions;
            forall id :: (id in s.sessions && s.sessions[id] == u) <==> (id in now && now[id] == u)
  {
    hide Next, Enabled, OneHolder, SweptAll, RowHeld, SessionHeld;
    SessionsAfter(s, step);
    if step.Login? {
      LoginIsAnothers(s, step.session, step.user, t);
    } else if step.Logout? {
      assert SweptAll(s, t);
      LogoutIsAnothers(s, step.session, t);
    } else if step.Commit? {
      assert SweptAll(s, step.tx);
      CommitterIsAnother(s, step.tx, t, Next(s, step));
      CommitDeletesItsOwn(s, step.tx);
    }
  }

  lemma LoginIsAnothers(s: State, session: SessionId, u: UserId, t: TxId)
    requires Enabled(s, Login(session, u)) && t in s.txs && s.txs[t].at.Swept?
    ensures session !in s.sessions && u != s.txs[t].input.subject
  {
  }

  lemma LogoutIsAnothers(s: State, session: SessionId, t: TxId)
    requires Enabled(s, Logout(session)) && t in s.txs && s.txs[t].at.Swept? && SweptAll(s, t)
    ensures session in s.sessions && s.sessions[session] != s.txs[t].input.subject
  {
  }

  lemma CommitDeletesItsOwn(s: State, c: TxId)
    requires c in s.txs && s.txs[c].at.Swept? && SweptAll(s, c)
    ensures forall id :: id in s.txs[c].at.deleted ==> id in s.sessions && s.sessions[id] == s.txs[c].input.subject
  {
  }

  lemma CommitterIsAnother(s: State, c: TxId, t: TxId, s': State)
    requires OneHolder(s) && Enabled(s, Commit(c)) && s' == Next(s, Commit(c))
    requires t in s.txs && t in s'.txs && s.txs[t].at.Swept? && s'.txs[t] == s.txs[t]
    ensures c in s.txs && s.txs[c].at.Swept? && s.txs[c].input.subject != s.txs[t].input.subject
  {
  }

  lemma {:induction false} RunKeepsRows(first: State, steps: seq<Step>)
    requires RowsInv(first) && Valid(first, steps)
    requires forall i :: 0 <= i < |steps| ==> !steps[i].LoginUnchecked?
    ensures RowsInv(After(first, steps))
  {
    hide Next, Enabled, OneHolder, SweptAll;
    if steps != [] {
      var n := |steps| - 1;
      var s := After(first, steps[..n]);
      RunKeepsRows(first, steps[..n]);
      StepKeepsOneHolder(s, steps[n]);
      forall t ensures SweptAll(Next(s, steps[n]), t) {
        StepKeepsSweptAll(s, steps[n], t);
      }
    }
  }

  /**
   * However role changes, logins and logouts interleave, with or without the advisory lock, a
   * commit leaves no session of its subject and every session of everybody else.
   */
  lemma CommitEndsTheSubjectsSessions(users: map<UserId, Option<Role>>, sessions: map<SessionId, UserId>, steps: seq<Step>, t: TxId)
    requires Valid(Start(users, sessions), steps) && Enabled(After(Start(users, sessions), steps), Commit(t))
    requires forall i :: 0 <= i < |steps| ==> !steps[i].LoginUnchecked?
    ensures var s := After(Start(users, sessions), steps);
            && t in s.txs
            && Next(s, Commit(t)).sessions
               == map id | id in s.sessions && s.sessions[id] != s.txs[t].input.subject :: s.sessions[id]
  {
    hide Valid, After;
    var first := Start(users, sessions);
    RunKeepsRows(first, steps);
    var s := After(first, steps);
    assert SweptAll(s, t);
  }

  /**
   * Without the foreign key's row lock, a demoted admin who logs in between the delete statement
   * and the commit keeps that session.
   */
  lemma LateLoginWithoutRowLock() returns (steps: seq<Step>)
    ensures Valid(Start(TwoAdmins(), map[]), steps) && forall i :: 0 <= i < |steps| ==> !steps[i].EnterUnlocked?
    ensures var s := After(Start(TwoAdmins(), map[]), steps);
            && Enabled(s, Commit(0)) && s.txs[0].input.subject == "a"
            && s.sessions == map[7 := "a"] && Next(s, Commit(0)).sessions == map[7 := "a"]
  {
    hide Valid, After, Permitted, Strings.Trim;
    var first := Start(TwoAdmins(), map[]);
    assert Valid(first, []) && After(first, []) == first by { NoStepsYet(first); }
    assert Permitted(first.users, Demotion("a")) by { DemotionIsPermitted(); }
    ReachesCheck(first, [], 0, Demotion("a"));
    steps := [] + [Submit(0, Demotion("a"))] + [Lock(0)] + [ReadSubject(0)] + [CheckOthers(0)];
    assert forall i :: 0 <= i < |steps| ==> !steps[i].EnterUnlocked?;
    steps := SweepsBeforeLogin(first, steps, 0, 7, "a");
  }

  /** A checked change runs to its delete statement, and then `user` logs in unchecked. */
  lemma SweepsBeforeLogin(first: State, before: seq<Step>, t: TxId, session: SessionId, user: UserId) returns (steps: seq<Step>)
    requires Valid(first, before) && t in After(first, before).txs && After(first, before).txs[t].at.Checked?
    requires After(first, before).sessions == map[] && user in After(first, before).users
    requires forall i :: 0 <= i < |before| ==> !before[i].EnterUnlocked?
    ensures Valid(first, steps) && forall i :: 0 <= i < |steps| ==> !steps[i].EnterUnlocked?
    ensures var s, s' := After(first, before), After(first, steps);
            && t in s'.txs && s'.txs[t].input == s.txs[t].input && s'.txs[t].at.Swept? && s'.txs[t].at.deleted == {}
            && s'.sessions == map[session := user]
  {
    hide Valid, After, Strings.Trim;
    steps := before;
    Extend(first, steps, Update(t));
    steps := steps + [Update(t)];
    Extend(first, steps, Audit(t, 0));
    steps := steps + [Audit(t, 0)];
    Extend(first, steps, Sweep(t));
    steps := steps + [Sweep(t)];
    Extend(first, steps, LoginUnchecked(session, user));
    steps := steps + [LoginUnchecked(session, user)];
  }

  lemma NoStepsYet(first: State)
    ensures Valid(first, []) && After(first, []) == first
  {
  }

  lemma DemotionIsPermitted()
    ensures Permitted(TwoAdmins(), Demotion("a"))
  {
    hide HasOtherAdmin, NormalizeReason, Permitted;
    ReasonIsGiven("x");
    TwoAdminsHaveEachOther(TwoAdmins());
    PermittedIff(TwoAdmins(), Demotion("a"));
    assert USER != ADMIN by { assert |USER| != |ADMIN|; }
  }

  // ----- which changes commit

  /** The subject has the requested role already; a missing role counts as `user`. */
  predicate HasRoleAlready(users: map<UserId, Option<Role>>, input: Input)
    requires input.subject in users
  {
    users[input.subject] == Some(input.toRole) || (users[input.subject].None? && input.toRole == "user")
  }

  /** The change takes the role from the only admin. */
  ghost predicate DemotesLastAdmin(users: map<UserId, Option<Role>>, input: Input)
    requires input.subject in users
  {
    && users[input.subject] == Some("admin") && input.toRole == "user"
    && forall u :: u in users && u != input.subject ==> users[u] != Some("admin")
  }

  /** The first rule that a request breaks, given the stored roles. */
  ghost function Answer(users: map<UserId, Option<Role>>, input: Input): Option<Refusal> {
    if Strings.Trim(input.reason) == "" then Some(ReasonRequired)
    else if input.toRole != "admin" && input.toRole != "user" then Some(InvalidRole)
    else if input.subject !in users then Some(UserNotFound)
    else if HasRoleAlready(users, input) then Some(RoleUnchanged)
    else if DemotesLastAdmin(users, input) then Some(LastAdminRequired)
    else None
  }

  /** What a caller may ask for, given the stored roles. */
  ghost predicate Permitted(users: map<UserId, Option<Role>>, input: Input) {
    Answer(users, input).None?
  }

  /** The same in terms of the checks that the transaction makes. */
  lemma PermittedIff(users: map<UserId, Option<Role>>, input: Input)
    ensures Permitted(users, input) <==>
              && NormalizeReason(input.reason).Some? && IsPlatformRole(input.toRole)
              && input.subject in users && RoleOf(users[input.subject]) != input.toRole
              && (IsDemotion(input, RoleOf(users[input.subject])) ==> HasOtherAdmin(users, input.subject))
  {
    hide Strings.Trim;
    assert USER == "user" && ADMIN == "admin" && "user" != "admin" by { assert |USER| != |ADMIN|; }
  }

  /** In every run under the lock, what commits is permitted by the roles at its commit. */
  lemma OnlyPermittedChangesCommit(first: State, steps: seq<Step>, t: TxId)
    requires Inv(first) && Valid(first, steps) && Enabled(After(first, steps), Commit(t))
    requires forall i :: 0 <= i < |steps| ==> !steps[i].EnterUnlocked?
    ensures var s := After(first, steps); t in s.txs && Permitted(s.users, s.txs[t].input)
  {
    hide NormalizeReason, HasOtherAdmin, After, Valid, Permitted;
    RunKeepsInv(first, steps);
    var s := After(first, steps);
    assert Admitted(s.txs[t]) && ReadHolds(s, s.txs[t]) && CheckHolds(s, s.txs[t]);
    PermittedIff(s.users, s.txs[t].input);
  }

  lemma LockedHoldsNoRow(s: State, s': State, t: TxId, input: Input)
    requires !RowHeld(s, input.subject) && t !in s.txs && s'.txs == s.txs[t := Tx(input, Locked)]
    ensures !RowHeld(s', input.subject)
  {
    assert forall t' :: t' in s'.txs && HoldsRow(s'.txs[t'].at) ==> t' in s.txs && s'.txs[t'] == s.txs[t'];
  }

  /** Whoever is noted as holding the advisory lock is a transaction under way. */
  ghost predicate HolderIsOpen(s: State) {
    s.lockHolder.Some? ==> s.lockHolder.value in s.txs && InCriticalSection(s.txs[s.lockHolder.value].at)
  }

  lemma StepKeepsHolder(s: State, step: Step)
    requires HolderIsOpen(s) && Enabled(s, step) && !step.EnterUnlocked?
    ensures HolderIsOpen(Next(s, step))
  {
    hide HasOtherAdmin, Entry, IsDemotion, Strings.Trim, RoleOf, RowHeld, SessionHeld;
  }

  lemma {:induction false} RunKeepsHolder(first: State, steps: seq<Step>)
    requires HolderIsOpen(first) && Valid(first, steps)
    requires forall i :: 0 <= i < |steps| ==> !steps[i].EnterUnlocked?
    ensures HolderIsOpen(After(first, steps))
  {
    hide Next, Enabled, HolderIsOpen;
    if steps != [] {
      var n := |steps| - 1;
      RunKeepsHolder(first, steps[..n]);
      StepKeepsHolder(After(first, steps[..n]), steps[n]);
    }
  }

  /**
   * In every run under the advisory lock, a transaction holds it if and only if it has begun its
   * statements and has neither committed nor been refused or rolled back: no lock is left behind.
   */
  lemma LockIsHeldIff(users: map<UserId, Option<Role>>, sessions: map<SessionId, UserId>, steps: seq<Step>, t: TxId)
    requires Valid(Start(users, sessions), steps)
    requires forall i :: 0 <= i < |steps| ==> !steps[i].EnterUnlocked?
    ensures var s := After(Start(users, sessions), steps);
            s.lockHolder == Some(t) <==>
              t in s.txs && !s.txs[t].at.Ready? && !s.txs[t].at.Committed? && !s.txs[t].at.Refused?
  {
    hide Valid, After, ReadHolds, CheckHolds, Admitted;
    var first := Start(users, sessions);
    assert Serialized(first) && HolderIsOpen(first);
    RunKeepsSerialized(first, steps);
    RunKeepsHolder(first, steps);
  }

  lemma {:induction false} RunKeepsSerialized(first: State, steps: seq<Step>)
    requires Serialized(first) && Valid(first, steps)
    requires forall i :: 0 <= i < |steps| ==> !steps[i].EnterUnlocked?
    ensures Serialized(After(first, steps))
  {
    hide Next, Enabled, Serialized;
    if steps != [] {
      var n := |steps| - 1;
      RunKeepsSerialized(first, steps[..n]);
      StepKeepsSerialized(After(first, steps[..n]), steps[n]);
    }
  }

  /** Under the advisory lock, a free lock means that no row is held. */
  lemma FreeLockFreesRows(first: State, steps: seq<Step>, u: UserId)
    requires Inv(first) && Valid(first, steps) && After(first, steps).lockHolder.None?
    requires forall i :: 0 <= i < |steps| ==> !steps[i].EnterUnlocked?
    ensures !RowHeld(After(first, steps), u)
  {
    hide Valid, After, ReadHolds, CheckHolds, Admitted;
    RunKeepsInv(first, steps);
  }

  /** A request whose reason and role are in order takes the lock, and then nobody holds its subject's row. */
  lemma TakesLockAlone(first: State, before: seq<Step>, t: TxId, input: Input)
    requires Valid(first, before) && t !in After(first, before).txs && After(first, before).lockHolder.None?
    requires !RowHeld(After(first, before), input.subject) && NormalizeReason(input.reason).Some? && IsPlatformRole(input.toRole)
    ensures var s, steps := After(first, before), before + [Submit(t, input)] + [Lock(t)];
            && Valid(first, steps)
            && After(first, steps) == s.(lockHolder := Some(t), txs := s.txs[t := Tx(input, Locked)])
            && !RowHeld(After(first, steps), input.subject)
  {
    hide Valid, After, NormalizeReason, IsPlatformRole, RowHeld;
    var s := After(first, before);
    Extend(first, before, Submit(t, input));
    Extend(first, before + [Submit(t, input)], Lock(t));
    var s' := After(first, before + [Submit(t, input)] + [Lock(t)]);
    assert s'.txs == s.txs[t := Tx(input, Locked)];
    LockedHoldsNoRow(s, s', t, input);
  }

  lemma ReachesCheck(first: State, before: seq<Step>, t: TxId, input: Input)
    requires Valid(first, before) && t !in After(first, before).txs && After(first, before).lockHolder.None?
    requires Permitted(After(first, before).users, input) && !RowHeld(After(first, before), input.subject)
    ensures var s, steps := After(first, before), before + [Submit(t, input)] + [Lock(t)] + [ReadSubject(t)] + [CheckOthers(t)];
            && Valid(first, steps)
            && After(first, steps) == s.(lockHolder := Some(t),
                 txs := s.txs[t := Tx(input, Checked(RoleOf(s.users[input.subject])))])
  {
    hide Valid, After, HasOtherAdmin, NormalizeReason, Permitted;
    var s := After(first, before);
    PermittedIff(s.users, input);
    TakesLockAlone(first, before, t, input);
    var steps := before + [Submit(t, input)] + [Lock(t)];
    Extend(first, steps, ReadSubject(t));
    steps := steps + [ReadSubject(t)];
    Extend(first, steps, CheckOthers(t));
    steps := steps + [CheckOthers(t)];
    assert After(first, steps).txs == s.txs[t := Tx(input, Checked(RoleOf(s.users[input.subject])))];
  }

  /** Nobody else touches the roles between the check and the commit of a change that runs alone. */
  lemma ReachesCommit(first: State, before: seq<Step>, t: TxId, id: nat)
    requires Valid(first, before) && t in After(first, before).txs && After(first, before).txs[t].at.Checked?
    requires After(first, before).lockHolder == Some(t)
    ensures var s, steps := After(first, before), before + [Update(t)] + [Audit(t, id)] + [Sweep(t)] + [Commit(t)];
            var input, fromRole := s.txs[t].input, s.txs[t].at.fromRole;
            && Valid(first, steps)
            && var s' := After(first, steps);
               && s'.users == s.users[input.subject := Some(input.toRole)]
               && s'.audit == s.audit + [AuditRow(id, input.actor, input.subject, fromRole, input.toRole, Strings.Trim(input.reason))]
               && (forall x :: x in s'.sessions <==> x in s.sessions && s.sessions[x] != input.subject)
               && s'.lockHolder.None? && t in s'.txs && s'.txs[t].at.Committed?
  {
    hide Valid, After, Strings.Trim;
    var steps := before;
    Extend(first, steps, Update(t));
    steps := steps + [Update(t)];
    Extend(first, steps, Audit(t, id));
    steps := steps + [Audit(t, id)];
    Extend(first, steps, Sweep(t));
    steps := steps + [Sweep(t)];
    Extend(first, steps, Commit(t));
  }

  /**
   * A permitted change that runs alone commits: the subject has the new role and no session left,
   * one audit row tells both roles and the trimmed reason, and the lock is free again.
   */
  lemma PermittedChangeCommits(first: State, before: seq<Step>, t: TxId, input: Input, id: nat) returns (steps: seq<Step>)
    requires Valid(first, before) && t !in After(first, before).txs && After(first, before).lockHolder.None?
    requires Permitted(After(first, before).users, input) && !RowHeld(After(first, before), input.subject)
    ensures Valid(first, steps) && before <= steps && Lock(t) in steps[|before|..]
    ensures forall i :: |before| <= i < |steps| ==> !steps[i].EnterUnlocked?
    ensures var s, s' := After(first, before), After(first, steps);
            && s'.users == s.users[input.subject := Some(input.toRole)]
            && s'.audit == s.audit + [AuditRow(id, input.actor, input.subject, RoleOf(s.users[input.subject]),
                                               input.toRole, Strings.Trim(input.reason))]
            && (forall x :: x in s'.sessions <==> x in s.sessions && s.sessions[x] != input.subject)
            && s'.lockHolder.None?
  {
    hide Valid, After, Strings.Trim, Permitted;
    ReachesCheck(first, before, t, input);
    steps := before + [Submit(t, input)] + [Lock(t)] + [ReadSubject(t)] + [CheckOthers(t)];
    ReachesCommit(first, steps, t, id);
    steps := steps + [Update(t)] + [Audit(t, id)] + [Sweep(t)] + [Commit(t)];
    assert steps[|before|..] == [Submit(t, input), Lock(t), ReadSubject(t), CheckOthers(t), Update(t), Audit(t, id), Sweep(t), Commit(t)];
  }

  lemma AnswerOfChecks(users: map<UserId, Option<Role>>, input: Input)
    ensures Answer(users, input) ==
              if NormalizeReason(input.reason).None? then Some(ReasonRequired)
              else if !IsPlatformRole(input.toRole) then Some(InvalidRole)
              else if input.subject !in users then Some(UserNotFound)
              else if RoleOf(users[input.subject]) == input.toRole then Some(RoleUnchanged)
              else if IsDemotion(input, RoleOf(users[input.subject])) && !HasOtherAdmin(users, input.subject)
              then Some(LastAdminRequired)
              else None
  {
    hide Strings.Trim;
    assert USER == "user" && ADMIN == "admin" && "user" != "admin" by { assert |USER| != |ADMIN|; }
  }

  /** Where a request that breaks a rule stops. */
  function StepsToRefusal(t: TxId, input: Input, why: Refusal): seq<Step> {
    if why == ReasonRequired || why == InvalidRole then [Submit(t, input)]
    else if why == LastAdminRequired then [Submit(t, input), Lock(t), ReadSubject(t), CheckOthers(t)]
    else [Submit(t, input), Lock(t), ReadSubject(t)]
  }

  /**
   * A request that breaks a rule and runs alone is refused for the first rule it breaks, changes
   * nothing else and gives the lock back.
   */
  lemma BrokenRuleIsAnswered(first: State, before: seq<Step>, t: TxId, input: Input)
    requires Valid(first, before) && t !in After(first, before).txs && After(first, before).lockHolder.None?
    requires !RowHeld(After(first, before), input.subject) && Answer(After(first, before).users, input).Some?
    ensures IsAnswered(first, before, t, input, Answer(After(first, before).users, input).value)
  {
    hide Valid, After, Answer, NormalizeReason, HasOtherAdmin, IsPlatformRole, RowHeld;
    var s := After(first, before);
    var why := Answer(s.users, input).value;
    AnswerOfChecks(s.users, input);
    if why == ReasonRequired || why == InvalidRole {
      Extend(first, before, Submit(t, input));
    } else if why == LastAdminRequired {
      hide IsAnswered;
      RefusedAtCheck(first, before, t, input);
    } else {
      hide IsAnswered;
      RefusedAtRead(first, before, t, input, why);
    }
  }

  ghost predicate IsAnswered(first: State, before: seq<Step>, t: TxId, input: Input, why: Refusal)
    requires Valid(first, before)
  {
    var s, steps := After(first, before), before + StepsToRefusal(t, input, why);
    && Valid(first, steps)
    && After(first, steps) == s.(txs := s.txs[t := Tx(input, Refused(why))])
  }

  lemma RefusedAtRead(first: State, before: seq<Step>, t: TxId, input: Input, why: Refusal)
    requires Valid(first, before) && t !in After(first, before).txs && After(first, before).lockHolder.None?
    requires !RowHeld(After(first, before), input.subject) && NormalizeReason(input.reason).Some? && IsPlatformRole(input.toRole)
    requires var users := After(first, before).users;
             if input.subject !in users then why == UserNotFound
             else RoleOf(users[input.subject]) == input.toRole && why == RoleUnchanged
    ensures IsAnswered(first, before, t, input, why)
  {
    hide Valid, After, NormalizeReason, HasOtherAdmin, IsPlatformRole, RowHeld;
    var s := After(first, before);
    TakesLockAlone(first, before, t, input);
    var steps := before + [Submit(t, input)] + [Lock(t)];
    Extend(first, steps, ReadSubject(t));
    steps := steps + [ReadSubject(t)];
    assert steps == before + StepsToRefusal(t, input, why);
    assert After(first, steps).txs == s.txs[t := Tx(input, Refused(why))];
  }

  lemma RefusedAtCheck(first: State, before: seq<Step>, t: TxId, input: Input)
    requires Valid(first, before) && t !in After(first, before).txs && After(first, before).lockHolder.None?
    requires !RowHeld(After(first, before), input.subject) && NormalizeReason(input.reason).Some? && IsPlatformRole(input.toRole)
    requires var users := After(first, before).users;
             && input.subject in users && RoleOf(users[input.subject]) != input.toRole
             && IsDemotion(input, RoleOf(users[input.subject])) && !HasOtherAdmin(users, input.subject)
    ensures IsAnswered(first, before, t, input, LastAdminRequired)
  {
    hide Valid, After, NormalizeReason, HasOtherAdmin, IsPlatformRole, RowHeld;
    var s := After(first, before);
    TakesLockAlone(first, before, t, input);
    var steps := before + [Submit(t, input)] + [Lock(t)];
    Extend(first, steps, ReadSubject(t));
    steps := steps + [ReadSubject(t)];
    Extend(first, steps, CheckOthers(t));
    steps := steps + [CheckOthers(t)];
    assert steps == before + StepsToRefusal(t, input, LastAdminRequired);
    assert After(first, steps).txs == s.txs[t := Tx(input, Refused(LastAdminRequired))];
  }

  // ----- the lock is needed

  lemma Extend(first: State, steps: seq<Step>, step: Step)
    requires Valid(first, steps) && Enabled(After(first, steps), step)
    ensures Valid(first, steps + [step]) && After(first, steps + [step]) == Next(After(first, steps), step)
  {
    assert (steps + [step])[..|steps|] == steps;
  }

  function TwoAdmins(): map<UserId, Option<Role>> { map["a" := Some(ADMIN), "b" := Some(ADMIN)] }

  function Demotion(subject: UserId): Input { Input("root", subject, USER, "x") }

  lemma ReasonIsGiven(reason: string)
    requires reason == "x"
    ensures NormalizeReason(reason) == Some("x")
  {
    assert !Strings.IsSpace(reason[0]);
    assert Strings.TrimStart(reason) == reason;
    assert Strings.TrimEnd(reason) == reason;
  }

  /** Transaction `t` submits the demotion of `subject` and enters without the lock, up to its check. */
  lemma ChecksUnlocked(first: State, before: seq<Step>, t: TxId, subject: UserId) returns (steps: seq<Step>)
    requires Valid(first, before)
    requires var s := After(first, before);
             && t !in s.txs && subject in s.users && s.users[subject] == Some(ADMIN) && HasOtherAdmin(s.users, subject)
             && !RowHeld(s, subject)
    ensures Valid(first, steps)
    ensures var s := After(first, before);
            After(first, steps) == s.(txs := s.txs[t := Tx(Demotion(subject), Checked(ADMIN))])
  {
    hide HasOtherAdmin, Strings.Trim, After, Valid;
    ghost var s := After(first, before);
    steps := EntersUnlocked(first, before, t, subject);
    LockedHoldsNoRow(s, After(first, steps), t, Demotion(subject));
    Extend(first, steps, ReadSubject(t));
    steps := steps + [ReadSubject(t)];
    Extend(first, steps, CheckOthers(t));
    steps := steps + [CheckOthers(t)];
    assert After(first, steps).txs == s.txs[t := Tx(Demotion(subject), Checked(ADMIN))];
  }

  lemma EntersUnlocked(first: State, before: seq<Step>, t: TxId, subject: UserId) returns (steps: seq<Step>)
    requires Valid(first, before) && t !in After(first, before).txs
    ensures Valid(first, steps)
    ensures var s := After(first, before);
            After(first, steps) == s.(txs := s.txs[t := Tx(Demotion(subject), Locked)])
  {
    hide Strings.Trim, After, Valid, NormalizeReason;
    ReasonIsGiven("x");
    ghost var s := After(first, before);
    steps := before;
    Extend(first, steps, Submit(t, Demotion(subject)));
    steps := steps + [Submit(t, Demotion(subject))];
    Extend(first, steps, EnterUnlocked(t));
    steps := steps + [EnterUnlocked(t)];
    assert After(first, steps).txs == s.txs[t := Tx(Demotion(subject), Locked)];
  }

  lemma Finishes(first: State, before: seq<Step>, t: TxId) returns (steps: seq<Step>)
    requires Valid(first, before)
    requires t in After(first, before).txs && After(first, before).txs[t].at.Checked?
    ensures Valid(first, steps)
    ensures var s := After(first, before);
            var input := s.txs[t].input;
            && After(first, steps).users == s.users[input.subject := Some(input.toRole)]
            && After(first, steps).txs.Keys == s.txs.Keys
            && forall t' :: t' in s.txs && t' != t ==> After(first, steps).txs[t'] == s.txs[t']
  {
    hide Strings.Trim, After, Valid;
    steps := before;
    Extend(first, steps, Update(t));
    steps := steps + [Update(t)];
    Extend(first, steps, Audit(t, 0));
    steps := steps + [Audit(t, 0)];
    Extend(first, steps, Sweep(t));
    steps := steps + [Sweep(t)];
    Extend(first, steps, Commit(t));
    steps := steps + [Commit(t)];
  }

  lemma TwoAdminsHaveEachOther(users: map<UserId, Option<Role>>)
    requires users == TwoAdmins()
    ensures HasAdmin(users) && HasOtherAdmin(users, "a") && HasOtherAdmin(users, "b")
  {
    assert users["a"] == Some(ADMIN) && users["b"] == Some(ADMIN) && "a" != "b";
  }

  /** Without the lock two demotions pass each other's check and leave no admin at all. */
  lemma WriteSkewWithoutLock() returns (steps: seq<Step>)
    ensures HasAdmin(TwoAdmins()) && Valid(Start(TwoAdmins(), map[]), steps)
    ensures !HasAdmin(After(Start(TwoAdmins(), map[]), steps).users)
  {
    hide Next, Enabled, HasOtherAdmin;
    var first := Start(TwoAdmins(), map[]);
    TwoAdminsHaveEachOther(first.users);
    steps := [];
    steps := ChecksUnlocked(first, steps, 0, "a");
    steps := ChecksUnlocked(first, steps, 1, "b");
    steps := Finishes(first, steps, 0);
    steps := Finishes(first, steps, 1);
    assert After(first, steps).users == map["a" := Some(USER), "b" := Some(USER)];
    assert USER != ADMIN by { assert |USER| != |ADMIN|; }
  }
}
