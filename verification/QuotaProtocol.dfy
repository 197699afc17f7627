/** Concurrent creates under a quota, as a transition system.

    Each call is one Service.Create: the service's own count, then a transaction that takes
    the user's advisory lock, counts, inserts and commits; every exit rolls back. Calls are
    interleaved step by step with each other and with the single-statement writes.

    What PostgreSQL contributes: a statement sees the rows committed before it starts
    (PostgreSQL 16 manual, section 13.2.1); a transaction-level advisory lock is held until
    commit or rollback (section 13.3.5); a write that conflicts with an uncommitted row on a
    unique index waits for that row's transaction. */
module QuotaProtocol {
  import opened Seqs
  import opened Domain
  import opened Table

  datatype Call = Call(row: Apiary, limit: nat)

  datatype Outcome = Created | Refused(error: Error)

  /** What a transaction that is about to roll back still has. */
  datatype Grip = Nothing | Lock | LockAndRow

  datatype Phase =
    | Checking
    | Idle
    | Begun
    | Locked
    | Counted
    | Inserted
    | Aborting(outcome: Outcome, grip: Grip)
    | Done(outcome: Outcome)

  /** Fixed for a run: the calls, and the hash that turns a user into a lock key. The hash is
      arbitrary; distinct users may collide. */
  datatype Config = Config(calls: seq<Call>, hash: Id -> int)
  {
    function User(i: nat): Id
      requires i < |calls|
    {
      calls[i].row.userId
    }

    function Key(i: nat): int
      requires i < |calls|
    {
      hash(User(i))
    }
  }

  datatype State = State(committed: seq<Apiary>, phases: seq<Phase>, locks: map<int, nat>)

  datatype Write =
    | Delete(user: Id, id: Id)
    | Edit(row: Apiary)
    | CreateUnlimited(row: Apiary)
    | Sweep(user: Id)

  datatype Action =
    | Precheck(i: nat)
    | Begin(i: nat)
    | Acquire(i: nat)
    | CountRows(i: nat)
    | InsertRow(i: nat)
    | Commit(i: nat)
    | CommitReplyLost(i: nat)
    | Fail(i: nat)
    | Rollback(i: nat)
    | Other(w: Write)

  predicate Holds(p: Phase) {
    p.Locked? || p.Counted? || p.Inserted? || (p.Aborting? && !p.grip.Nothing?)
  }

  /** The transaction has an uncommitted row. */
  predicate Pending(p: Phase) {
    p.Inserted? || (p.Aborting? && p.grip.LockAndRow?)
  }

  /** Counted below the limit, and the row not yet committed or rolled back. */
  predicate Cleared(p: Phase) {
    p.Counted? || Pending(p)
  }

  predicate SameName(a: Apiary, b: Apiary) {
    a.Live() && b.Live() && a.userId == b.userId && a.name == b.name
  }

  predicate Clash(a: Apiary, b: Apiary) {
    a.id == b.id || SameName(a, b)
  }

  /** Some uncommitted row of a transaction other than `self` would make inserting `row` wait. */
  predicate Waits(c: Config, s: State, row: Apiary, self: int)
    requires |s.phases| == |c.calls|
  {
    exists j :: 0 <= j < |s.phases| && j != self && Pending(s.phases[j]) && Clash(row, c.calls[j].row)
  }

  predicate EditWaits(c: Config, s: State, row: Apiary)
    requires |s.phases| == |c.calls|
  {
    Filter(s.committed, LiveRow(row.userId, row.id)) != [] &&
    exists j :: 0 <= j < |s.phases| && Pending(s.phases[j]) &&
                c.calls[j].row.userId == row.userId && c.calls[j].row.name == row.name
  }

  predicate WriteEnabled(c: Config, s: State, w: Write)
    requires |s.phases| == |c.calls|
  {
    match w
    case Delete(_, _) => true
    case Sweep(_) => true
    case Edit(row) => !EditWaits(c, s, row)
    case CreateUnlimited(row) => row.Live() && !Waits(c, s, row, -1)
  }

  function AfterWrite(t: seq<Apiary>, w: Write): seq<Apiary> {
    match w
    case Delete(user, id) => HardDelete(t, user, id).table
    case Sweep(user) => DeleteAllByUserHard(t, user)
    case Edit(row) => Update(t, row).table
    case CreateUnlimited(row) => Insert(t, row).table
  }

  predicate Enabled(c: Config, s: State, a: Action)
    requires |s.phases| == |c.calls|
  {
    if a.Other? then WriteEnabled(c, s, a.w)
    else
      a.i < |s.phases| &&
      var p := s.phases[a.i];
      match a
      case Precheck(i) => p.Checking?
      case Begin(i) => p.Idle?
      case Acquire(i) => p.Begun? && c.Key(i) !in s.locks
      case CountRows(i) => p.Locked?
      case InsertRow(i) => p.Counted? && !Waits(c, s, c.calls[i].row, i)
      case Commit(i) => p.Inserted?
      case CommitReplyLost(i) => p.Inserted?
      case Fail(i) => !p.Aborting? && !p.Done?
      case Rollback(i) => p.Aborting?
      case Other(_) => true
  }

  function Release(locks: map<int, nat>, i: nat): map<int, nat> {
    map k | k in locks && locks[k] != i :: locks[k]
  }

  /** Where a call stands after its count. */
  function Judge(t: seq<Apiary>, call: Call, pass: Phase, stop: Phase): Phase {
    if Count(t, call.row.userId) >= call.limit then stop else pass
  }

  function Apply(c: Config, s: State, a: Action): State
    requires |s.phases| == |c.calls| && Enabled(c, s, a)
  {
    match a
    case Precheck(i) =>
      s.(phases := s.phases[i := Judge(s.committed, c.calls[i], Idle, Done(Refused(LimitReached)))])
    case Begin(i) => s.(phases := s.phases[i := Begun])
    case Acquire(i) => s.(phases := s.phases[i := Locked], locks := s.locks[c.Key(i) := i])
    case CountRows(i) =>
      s.(phases := s.phases[i := Judge(s.committed, c.calls[i], Counted, Aborting(Refused(LimitReached), Lock))])
    case InsertRow(i) =>
      var error := Insert(s.committed, c.calls[i].row).error;
      s.(phases := s.phases[i := if error.Some? then Aborting(Refused(error.value), Lock) else Inserted])
    case Commit(i) =>
      State(s.committed + [c.calls[i].row], s.phases[i := Done(Created)], Release(s.locks, i))
    case CommitReplyLost(i) =>
      State(s.committed + [c.calls[i].row], s.phases[i := Done(Refused(Upstream))], Release(s.locks, i))
    case Fail(i) =>
      var p := s.phases[i];
      s.(phases := s.phases[i :=
        if p.Checking? || p.Idle? then Done(Refused(Upstream))
        else Aborting(Refused(Upstream), if p.Inserted? then LockAndRow else if Holds(p) then Lock else Nothing)])
    case Rollback(i) =>
      s.(phases := s.phases[i := Done(s.phases[i].outcome)], locks := Release(s.locks, i))
    case Other(w) => s.(committed := AfterWrite(s.committed, w))
  }

  /** `acts` is a possible schedule from `s`. Every reachable state ends such a schedule. */
  ghost predicate CanRun(c: Config, s: State, acts: seq<Action>)
    requires |s.phases| == |c.calls|
    decreases |acts|
  {
    acts == [] || (Enabled(c, s, acts[0]) && CanRun(c, Apply(c, s, acts[0]), acts[1..]))
  }

  ghost function Final(c: Config, s: State, acts: seq<Action>): (r: State)
    requires |s.phases| == |c.calls| && CanRun(c, s, acts)
    ensures |r.phases| == |c.calls|
    decreases |acts|
  {
    if acts == [] then s else Final(c, Apply(c, s, acts[0]), acts[1..])
  }

  /** New rows are live, and a quota is positive: other creates do not run this protocol. */
  ghost predicate GoodCalls(c: Config) {
    forall i :: 0 <= i < |c.calls| ==> c.calls[i].row.Live() && c.calls[i].limit > 0
  }

  ghost predicate Initial(c: Config, s: State) {
    && |s.phases| == |c.calls|
    && (forall i :: 0 <= i < |s.phases| ==> s.phases[i].Checking? || s.phases[i].Idle?)
    && GoodCalls(c)
    && s.locks == map[]
    && Valid(s.committed)
  }

  // ---- invariants ----

  /** The lock table and the transactions agree on who holds what. */
  ghost predicate LockInv(c: Config, s: State)
    requires |s.phases| == |c.calls|
  {
    && (forall i :: 0 <= i < |s.phases| && Holds(s.phases[i])
          ==> c.Key(i) in s.locks && s.locks[c.Key(i)] == i)
    && (forall k :: k in s.locks
          ==> s.locks[k] < |s.phases| && Holds(s.phases[s.locks[k]]) && c.Key(s.locks[k]) == k)
  }

  /** Uncommitted rows fit the committed table and each other. */
  ghost predicate RowInv(c: Config, s: State)
    requires |s.phases| == |c.calls|
  {
    && Valid(s.committed)
    && GoodCalls(c)
    && (forall i :: 0 <= i < |s.phases| && s.phases[i].Inserted?
          ==> Insert(s.committed, c.calls[i].row).error.None?)
    && (forall i, j :: 0 <= i < |s.phases| && 0 <= j < |s.phases| && i != j
          && Pending(s.phases[i]) && Pending(s.phases[j])
          ==> !Clash(c.calls[i].row, c.calls[j].row))
  }

  ghost predicate Inv(c: Config, s: State) {
    |s.phases| == |c.calls| && LockInv(c, s) && RowInv(c, s)
  }

  /** A cleared call of `user` still has room for its row under a limit raised by `over`. */
  ghost predicate QuotaInv(c: Config, s: State, user: Id, over: nat)
    requires |s.phases| == |c.calls|
  {
    forall i :: 0 <= i < |s.phases| && c.User(i) == user && Cleared(s.phases[i])
      ==> Count(s.committed, user) < c.calls[i].limit + over
  }

  lemma InitialInv(c: Config, s: State)
    requires Initial(c, s)
    ensures Inv(c, s) && forall user :: QuotaInv(c, s, user, 0)
  {
  }

  lemma LockKept(c: Config, s: State, i: nat, p: Phase)
    requires |s.phases| == |c.calls| && LockInv(c, s) && i < |s.phases| && Holds(p) == Holds(s.phases[i])
    ensures LockInv(c, s.(phases := s.phases[i := p]))
  {
  }

  lemma LockReleased(c: Config, s: State, i: nat, p: Phase, t: seq<Apiary>)
    requires |s.phases| == |c.calls| && LockInv(c, s) && i < |s.phases| && !Holds(p)
    ensures LockInv(c, State(t, s.phases[i := p], Release(s.locks, i)))
  {
  }

  lemma LockStep(c: Config, s: State, a: Action)
    requires |s.phases| == |c.calls| && LockInv(c, s) && Enabled(c, s, a)
    ensures LockInv(c, Apply(c, s, a))
  {
    var r := Apply(c, s, a);
    match a
    case Other(_) =>
    case Acquire(_) =>
    case Commit(i) => LockReleased(c, s, i, Done(Created), r.committed);
    case CommitReplyLost(i) => LockReleased(c, s, i, Done(Refused(Upstream)), r.committed);
    case Rollback(i) => LockReleased(c, s, i, r.phases[i], r.committed);
    case _ => LockKept(c, s, a.i, r.phases[a.i]);
  }

  lemma WriteKeepsFit(t: seq<Apiary>, w: Write, row: Apiary)
    requires Valid(t) && row.Live() && Insert(t, row).error.None?
    requires w.CreateUnlimited? ==> w.row.Live() && !Clash(w.row, row)
    requires w.Edit? && Filter(t, LiveRow(w.row.userId, w.row.id)) != []
             ==> !(w.row.userId == row.userId && w.row.name == row.name)
    ensures Insert(AfterWrite(t, w), row).error.None?
  {
    var r := AfterWrite(t, w);
    if w.Edit? && r != t {
      forall a | a in r ensures !Clash(a, row) {
        var i :| 0 <= i < |r| && r[i] == a;
        assert t[i] in t;
      }
    }
  }

  lemma WriteKeepsValid(t: seq<Apiary>, w: Write)
    requires Valid(t)
    ensures Valid(AfterWrite(t, w))
  {
    match w
    case Delete(user, id) => ValidFilter(t, OtherThan(user, id));
    case Sweep(user) => ValidFilter(t, NotOwnedBy(user));
    case Edit(row) => ValidUpdate(t, row);
    case CreateUnlimited(row) => ValidInsert(t, row);
  }

  lemma RowStepWrite(c: Config, s: State, w: Write)
    requires |s.phases| == |c.calls| && RowInv(c, s) && WriteEnabled(c, s, w)
    ensures RowInv(c, s.(committed := AfterWrite(s.committed, w)))
  {
    WriteKeepsValid(s.committed, w);
    forall i | 0 <= i < |s.phases| && s.phases[i].Inserted?
      ensures Insert(AfterWrite(s.committed, w), c.calls[i].row).error.None?
    {
      WriteKeepsFit(s.committed, w, c.calls[i].row);
    }
  }

  lemma RowStepCommit(c: Config, s: State, i: nat, outcome: Outcome)
    requires |s.phases| == |c.calls| && RowInv(c, s) && i < |s.phases| && s.phases[i].Inserted?
    ensures RowInv(c, State(s.committed + [c.calls[i].row], s.phases[i := Done(outcome)], Release(s.locks, i)))
  {
    ValidInsert(s.committed, c.calls[i].row);
    forall j | 0 <= j < |s.phases| && j != i && s.phases[j].Inserted?
      ensures Insert(s.committed + [c.calls[i].row], c.calls[j].row).error.None?
    {
      assert !Clash(c.calls[i].row, c.calls[j].row);
    }
  }

  lemma RowStepInsert(c: Config, s: State, i: nat)
    requires |s.phases| == |c.calls| && RowInv(c, s) && Enabled(c, s, InsertRow(i))
    ensures RowInv(c, Apply(c, s, InsertRow(i)))
  {
    var r := Apply(c, s, InsertRow(i));
    forall j, k | 0 <= j < |r.phases| && 0 <= k < |r.phases| && j != k && Pending(r.phases[j]) && Pending(r.phases[k])
      ensures !Clash(c.calls[j].row, c.calls[k].row)
    {
      assert j != i ==> Pending(s.phases[j]);
      assert k != i ==> Pending(s.phases[k]);
    }
  }

  /** A step that writes no row, and leaves none pending that was not. */
  lemma RowStepPhase(c: Config, s: State, i: nat, p: Phase, locks: map<int, nat>)
    requires |s.phases| == |c.calls| && RowInv(c, s) && i < |s.phases|
    requires !p.Inserted? && (Pending(p) ==> Pending(s.phases[i]))
    ensures RowInv(c, State(s.committed, s.phases[i := p], locks))
  {
    var ps := s.phases[i := p];
    forall j | 0 <= j < |ps|
      ensures (ps[j].Inserted? ==> s.phases[j].Inserted?) && (Pending(ps[j]) ==> Pending(s.phases[j]))
    {
      assert j != i ==> ps[j] == s.phases[j];
    }
  }

  lemma RowStep(c: Config, s: State, a: Action)
    requires |s.phases| == |c.calls| && RowInv(c, s) && Enabled(c, s, a)
    ensures RowInv(c, Apply(c, s, a))
  {
    match a
    case Other(w) => RowStepWrite(c, s, w);
    case InsertRow(i) => RowStepInsert(c, s, i);
    case Commit(i) => RowStepCommit(c, s, i, Created);
    case CommitReplyLost(i) => RowStepCommit(c, s, i, Refused(Upstream));
    case _ => RowStepPhase(c, s, a.i, Apply(c, s, a).phases[a.i], Apply(c, s, a).locks);
  }

  /** Two transactions never hold the same lock key at once. */
  lemma LocksExclude(c: Config, s: State, i: nat, j: nat)
    requires Inv(c, s) && i < |s.phases| && j < |s.phases| && i != j
    requires Holds(s.phases[i]) && Holds(s.phases[j])
    ensures c.Key(i) != c.Key(j)
  {
  }

  /** Unlimited creates take no lock; these are the users they are for, once for each. */
  ghost function Bypass(a: Action): multiset<Id> {
    if a.Other? && a.w.CreateUnlimited? then multiset{a.w.row.userId} else multiset{}
  }

  ghost function Bypasses(acts: seq<Action>): multiset<Id> {
    if acts == [] then multiset{} else Bypass(acts[0]) + Bypasses(acts[1..])
  }

  lemma WriteCount(t: seq<Apiary>, w: Write, user: Id)
    ensures Count(AfterWrite(t, w), user) <= Count(t, user) + Bypass(Other(w))[user]
  {
    match w
    case Delete(u, id) => CountFilter(t, OtherThan(u, id), user);
    case Sweep(u) => CountFilter(t, NotOwnedBy(u), user);
    case Edit(row) => CountRewrite(t, row, user);
    case CreateUnlimited(row) => CountSnoc(t, row, user);
  }

  /** While call `i` commits its row, no other call of the same user is cleared. */
  lemma CommitsAlone(c: Config, s: State, i: nat, user: Id)
    requires Inv(c, s) && i < |s.phases| && Holds(s.phases[i]) && c.User(i) == user
    ensures forall j :: 0 <= j < |s.phases| && j != i && c.User(j) == user ==> !Holds(s.phases[j])
  {
    forall j | 0 <= j < |s.phases| && j != i && c.User(j) == user ensures !Holds(s.phases[j]) {
      if Holds(s.phases[j]) {
        LocksExclude(c, s, i, j);
      }
    }
  }

  lemma QuotaStepCommit(c: Config, s: State, i: nat, outcome: Outcome, user: Id, over: nat)
    requires Inv(c, s) && QuotaInv(c, s, user, over) && i < |s.phases| && s.phases[i].Inserted?
    ensures QuotaInv(c, State(s.committed + [c.calls[i].row], s.phases[i := Done(outcome)], Release(s.locks, i)),
                     user, over)
  {
    CountSnoc(s.committed, c.calls[i].row, user);
    if c.User(i) == user {
      CommitsAlone(c, s, i, user);
    }
  }

  /** A step of a call that writes no row clears the call only below the limit. */
  lemma QuotaStepPhase(c: Config, s: State, a: Action, user: Id, over: nat)
    requires |s.phases| == |c.calls| && QuotaInv(c, s, user, over) && Enabled(c, s, a)
    requires !a.Other? && !a.Commit? && !a.CommitReplyLost?
    ensures QuotaInv(c, Apply(c, s, a), user, over)
  {
  }

  lemma QuotaStep(c: Config, s: State, a: Action, user: Id, over: nat)
    requires Inv(c, s) && QuotaInv(c, s, user, over) && Enabled(c, s, a)
    ensures QuotaInv(c, Apply(c, s, a), user, over + Bypass(a)[user])
  {
    match a
    case Other(w) => WriteCount(s.committed, w, user);
    case Commit(i) => QuotaStepCommit(c, s, i, Created, user, over);
    case CommitReplyLost(i) => QuotaStepCommit(c, s, i, Refused(Upstream), user, over);
    case _ => QuotaStepPhase(c, s, a, user, over);
  }

  lemma Step(c: Config, s: State, a: Action)
    requires Inv(c, s) && Enabled(c, s, a)
    ensures Inv(c, Apply(c, s, a))
  {
    LockStep(c, s, a);
    RowStep(c, s, a);
  }

  /** Every reachable state keeps the key constraints and mutual exclusion, and a cleared call's
      room shrinks by no more than the unlimited creates for its user. */
  lemma {:induction false} RunInv(c: Config, s: State, acts: seq<Action>)
    requires Inv(c, s) && CanRun(c, s, acts)
    ensures Inv(c, Final(c, s, acts))
    ensures forall user, over: nat :: QuotaInv(c, s, user, over)
              ==> QuotaInv(c, Final(c, s, acts), user, over + Bypasses(acts)[user])
    decreases |acts|
  {
    if acts != [] {
      Step(c, s, acts[0]);
      RunInv(c, Apply(c, s, acts[0]), acts[1..]);
      forall user, over: nat | QuotaInv(c, s, user, over)
        ensures QuotaInv(c, Final(c, s, acts), user, over + Bypasses(acts)[user])
      {
        QuotaStep(c, s, acts[0], user, over);
      }
    }
  }

  // ---- quota safety ----

  ghost function PendingOf(c: Config, s: State, user: Id): set<nat>
    requires |s.phases| == |c.calls|
  {
    set i | 0 <= i < |s.phases| && Pending(s.phases[i]) && c.User(i) == user
  }

  lemma OnePending(c: Config, s: State, user: Id, i: nat)
    requires Inv(c, s) && i in PendingOf(c, s, user)
    ensures PendingOf(c, s, user) == {i}
  {
    forall j | j in PendingOf(c, s, user) ensures j == i {
      if j != i {
        LocksExclude(c, s, i, j);
      }
    }
  }

  lemma CommittedStep(c: Config, s: State, a: Action, user: Id, bound: nat, over: nat)
    requires Inv(c, s) && QuotaInv(c, s, user, over) && Enabled(c, s, a)
    requires forall i :: 0 <= i < |c.calls| && c.User(i) == user ==> c.calls[i].limit + over <= bound
    requires Count(s.committed, user) <= bound
    ensures Count(Apply(c, s, a).committed, user) <= bound + Bypass(a)[user]
  {
    if a.Other? {
      WriteCount(s.committed, a.w, user);
    } else if a.Commit? || a.CommitReplyLost? {
      CountSnoc(s.committed, c.calls[a.i].row, user);
    }
  }

  /** A bound on committed rows that lies above all raised limits grows by the unlimited
      creates alone. */
  lemma {:induction false} CommittedBound(c: Config, s: State, acts: seq<Action>, user: Id, bound: nat, over: nat)
    requires Inv(c, s) && CanRun(c, s, acts) && QuotaInv(c, s, user, over)
    requires forall i :: 0 <= i < |c.calls| && c.User(i) == user ==> c.calls[i].limit + over <= bound
    requires Count(s.committed, user) <= bound
    ensures Count(Final(c, s, acts).committed, user) <= bound + Bypasses(acts)[user]
    decreases |acts|
  {
    if acts != [] {
      var a, more := acts[0], Bypass(acts[0])[user];
      Step(c, s, a);
      QuotaStep(c, s, a, user, over);
      CommittedStep(c, s, a, user, bound, over);
      CommittedBound(c, Apply(c, s, a), acts[1..], user, bound + more, over + more);
    }
  }

  /** Quota safety: in every reachable state the user's committed and uncommitted live rows
      together stay within the limit, or within what the user already had, exceeded by at most
      the unlimited creates the run holds for that user. */
  lemma QuotaSafety(c: Config, s: State, acts: seq<Action>, user: Id, limit: nat)
    requires Initial(c, s) && CanRun(c, s, acts)
    requires forall i :: 0 <= i < |c.calls| && c.User(i) == user ==> c.calls[i].limit <= limit
    ensures var r := Final(c, s, acts);
            Count(r.committed, user) + |PendingOf(c, r, user)|
            <= Max(Count(s.committed, user), limit) + Bypasses(acts)[user]
  {
    InitialInv(c, s);
    RunInv(c, s, acts);
    CommittedBound(c, s, acts, user, Max(Count(s.committed, user), limit), 0);
    var r := Final(c, s, acts);
    assert QuotaInv(c, s, user, 0);
    assert QuotaInv(c, r, user, Bypasses(acts)[user]);
    if i :| i in PendingOf(c, r, user) {
      OnePending(c, r, user, i);
    }
  }
}
