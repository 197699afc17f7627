/** The quota protocol cannot deadlock, always finishes, and grants exactly the free places. */
module QuotaProgress {
  import opened Seqs
  import opened Domain
  import opened Table
  import opened QuotaProtocol

  /** A step a call takes when nothing goes wrong. */
  predicate Advances(a: Action) {
    !a.Other? && !a.Fail? && !a.CommitReplyLost?
  }

  ghost predicate AllDone(s: State) {
    forall i :: 0 <= i < |s.phases| ==> s.phases[i].Done?
  }

  /** The next step of a call that holds its lock; a call waiting on a unique index names the
      transaction it waits for instead. */
  lemma HolderMoves(c: Config, s: State, i: nat) returns (a: Action)
    requires Inv(c, s) && i < |s.phases| && Holds(s.phases[i])
    ensures Enabled(c, s, a) && Advances(a)
  {
    match s.phases[i]
    case Locked => a := CountRows(i);
    case Inserted => a := Commit(i);
    case Aborting(_, _) => a := Rollback(i);
    case Counted =>
      if j :| 0 <= j < |s.phases| && j != i && Pending(s.phases[j]) && Clash(c.calls[i].row, c.calls[j].row) {
        a := if s.phases[j].Inserted? then Commit(j) else Rollback(j);
      } else {
        a := InsertRow(i);
      }
  }

  /** No reachable state is stuck: while a call is unfinished, some call can take a step
      without anything having to fail. */
  lemma NeverStuck(c: Config, s: State) returns (a: Action)
    requires Inv(c, s) && !AllDone(s)
    ensures Enabled(c, s, a) && Advances(a)
  {
    var i :| 0 <= i < |s.phases| && !s.phases[i].Done?;
    var p := s.phases[i];
    if p.Checking? {
      a := Precheck(i);
    } else if p.Idle? {
      a := Begin(i);
    } else if p.Aborting? {
      a := Rollback(i);
    } else if p.Begun? && c.Key(i) !in s.locks {
      a := Acquire(i);
    } else {
      a := HolderMoves(c, s, if p.Begun? then s.locks[c.Key(i)] else i);
    }
  }

  function StepsLeft(p: Phase): nat {
    match p
    case Checking => 7
    case Idle => 6
    case Begun => 5
    case Locked => 4
    case Counted => 3
    case Inserted => 2
    case Aborting(_, _) => 1
    case Done(_) => 0
  }

  function TotalLeft(ps: seq<Phase>): nat {
    if ps == [] then 0 else TotalLeft(ps[..|ps| - 1]) + StepsLeft(ps[|ps| - 1])
  }

  lemma {:induction false} TotalLeftUpdate(ps: seq<Phase>, i: nat, p: Phase)
    requires i < |ps|
    ensures TotalLeft(ps[i := p]) == TotalLeft(ps) - StepsLeft(ps[i]) + StepsLeft(p)
  {
    var n := |ps| - 1;
    if i == n {
      assert ps[i := p][..n] == ps[..n];
    } else {
      TotalLeftUpdate(ps[..n], i, p);
      assert ps[i := p][..n] == ps[..n][i := p];
    }
  }

  /** Every step of a call, faults included, brings the calls closer to their end. */
  lemma StepsDecrease(c: Config, s: State, a: Action)
    requires |s.phases| == |c.calls| && Enabled(c, s, a)
    ensures if a.Other? then Apply(c, s, a).phases == s.phases
            else TotalLeft(Apply(c, s, a).phases) < TotalLeft(s.phases)
  {
    if !a.Other? {
      TotalLeftUpdate(s.phases, a.i, Apply(c, s, a).phases[a.i]);
    }
  }

  ghost function CallSteps(acts: seq<Action>): nat {
    if acts == [] then 0 else (if acts[0].Other? then 0 else 1) + CallSteps(acts[1..])
  }

  lemma {:induction false} TotalLeftAtMost(ps: seq<Phase>)
    ensures TotalLeft(ps) <= 7 * |ps|
  {
    if ps != [] {
      TotalLeftAtMost(ps[..|ps| - 1]);
    }
  }

  lemma {:induction false} CallStepsPaid(c: Config, s: State, acts: seq<Action>)
    requires |s.phases| == |c.calls| && CanRun(c, s, acts)
    ensures CallSteps(acts) + TotalLeft(Final(c, s, acts).phases) <= TotalLeft(s.phases)
    decreases |acts|
  {
    if acts != [] {
      StepsDecrease(c, s, acts[0]);
      CallStepsPaid(c, Apply(c, s, acts[0]), acts[1..]);
    }
  }

  /** No schedule, faulty or not, makes the calls take more than seven steps each. */
  lemma RunsAreShort(c: Config, s: State, acts: seq<Action>)
    requires |s.phases| == |c.calls| && CanRun(c, s, acts)
    ensures CallSteps(acts) <= 7 * |c.calls|
  {
    CallStepsPaid(c, s, acts);
    TotalLeftAtMost(s.phases);
  }

  ghost predicate FaultFree(acts: seq<Action>) {
    forall k :: 0 <= k < |acts| ==> Advances(acts[k])
  }

  /** From every reachable state the calls can all finish with no further fault. */
  lemma {:induction false} CanFinish(c: Config, s: State) returns (acts: seq<Action>)
    requires Inv(c, s)
    ensures FaultFree(acts) && CanRun(c, s, acts) && AllDone(Final(c, s, acts))
    decreases TotalLeft(s.phases)
  {
    if AllDone(s) {
      acts := [];
    } else {
      var a := NeverStuck(c, s);
      Step(c, s, a);
      StepsDecrease(c, s, a);
      var rest := CanFinish(c, Apply(c, s, a));
      acts := [a] + rest;
      assert acts[1..] == rest;
    }
  }

  /** A call waits only for a transaction that holds its user's lock key, or for one whose
      uncommitted row has its id or its name; in every other phase it can go on. */
  lemma BlockedOnlyBy(c: Config, s: State, i: nat)
    requires Inv(c, s) && i < |s.phases|
    ensures s.phases[i].Begun? && !Enabled(c, s, Acquire(i))
            ==> exists j :: 0 <= j < |s.phases| && j != i && Holds(s.phases[j]) && c.Key(j) == c.Key(i)
    ensures s.phases[i].Counted? && !Enabled(c, s, InsertRow(i))
            ==> exists j :: 0 <= j < |s.phases| && j != i && Pending(s.phases[j])
                            && (c.calls[j].row.id == c.calls[i].row.id ||
                                (c.User(j) == c.User(i) && c.calls[j].row.name == c.calls[i].row.name))
    ensures !s.phases[i].Begun? && !s.phases[i].Counted? && !s.phases[i].Done?
            ==> exists a :: Enabled(c, s, a) && Advances(a) && a.i == i
  {
    var p := s.phases[i];
    if p.Begun? && !Enabled(c, s, Acquire(i)) {
      var j := s.locks[c.Key(i)];
      assert Holds(s.phases[j]) && c.Key(j) == c.Key(i);
    } else if !p.Begun? && !p.Counted? && !p.Done? {
      var a := match p
        case Checking => Precheck(i)
        case Idle => Begin(i)
        case Locked => CountRows(i)
        case Inserted => Commit(i)
        case _ => Rollback(i);
      assert Enabled(c, s, a) && Advances(a) && a.i == i;
    }
  }

  // ---- nothing is ruled out ----

  /** Any unfinished call can fail at any point, leaving the table as it was; only its commit
      may take effect and be reported as failed. */
  lemma CanFail(c: Config, s: State, i: nat)
    requires Inv(c, s) && i < |s.phases| && !s.phases[i].Done?
    ensures !s.phases[i].Aborting? ==>
              && Enabled(c, s, Fail(i))
              && var r := Apply(c, s, Fail(i));
                 && r.committed == s.committed
                 && (r.phases[i].Aborting? || r.phases[i].Done?) && r.phases[i].outcome == Refused(Upstream)
    ensures s.phases[i].Aborting? ==>
              && Enabled(c, s, Rollback(i))
              && Apply(c, s, Rollback(i)).committed == s.committed
              && Apply(c, s, Rollback(i)).phases[i] == Done(s.phases[i].outcome)
    ensures s.phases[i].Inserted? ==>
              && Enabled(c, s, CommitReplyLost(i))
              && Apply(c, s, CommitReplyLost(i)).committed == s.committed + [c.calls[i].row]
              && Apply(c, s, CommitReplyLost(i)).phases[i] == Done(Refused(Upstream))
  {
  }

  /** The other writes come in between as they like: deletions at any time, and an edit or an
      unlimited create when no uncommitted row is in its way; each has its effect. */
  lemma OthersInterfere(c: Config, s: State, w: Write)
    requires Inv(c, s)
    requires (w.Edit? || w.CreateUnlimited?) ==> forall j :: 0 <= j < |s.phases| ==> !Pending(s.phases[j])
    requires w.CreateUnlimited? ==> w.row.Live()
    ensures Enabled(c, s, Other(w))
    ensures var t, r := s.committed, Apply(c, s, Other(w)).committed;
            match w
            case Delete(user, id) => forall a :: a in r <==> a in t && !(a.userId == user && a.id == id)
            case Sweep(user) => forall a :: a in r <==> a in t && a.userId != user
            case Edit(row) => Editable(t, row.userId, row.id) && !NameHeld(t, row.userId, row.name, row.id) ==>
                                exists a :: a in r && LiveRow(row.userId, row.id)(a) && a.name == row.name
            case CreateUnlimited(row) => row in r <==> Valid(t + [row]) || row in t
  {
    match w
    case Edit(row) =>
      if Editable(s.committed, row.userId, row.id) && !NameHeld(s.committed, row.userId, row.name, row.id) {
        EditTakes(s.committed, row);
      }
    case CreateUnlimited(row) => InsertExact(s.committed, row);
    case _ =>
  }

  lemma EditTakes(t: seq<Apiary>, row: Apiary)
    requires Editable(t, row.userId, row.id) && !NameHeld(t, row.userId, row.name, row.id)
    ensures var r := Update(t, row).table;
            exists a :: a in r && LiveRow(row.userId, row.id)(a) && a.name == row.name
  {
    var b :| b in t && LiveRow(row.userId, row.id)(b);
    assert b in Filter(t, LiveRow(row.userId, row.id));
    var i :| 0 <= i < |t| && t[i] == b;
    var r := Update(t, row).table;
    assert r[i] in r && LiveRow(row.userId, row.id)(r[i]) && r[i].name == row.name;
  }

  // ---- exact yield ----

  ghost function CallsOf(c: Config, user: Id): set<nat> {
    set i | 0 <= i < |c.calls| && c.User(i) == user
  }

  ghost function CreatedOf(c: Config, s: State, user: Id): set<nat>
    requires |s.phases| == |c.calls|
  {
    set i | 0 <= i < |c.calls| && c.User(i) == user && s.phases[i] == Done(Created)
  }

  /** The user's calls fit the table and clash with no other call. */
  ghost predicate FreshCalls(c: Config, t: seq<Apiary>, user: Id) {
    && (forall i :: 0 <= i < |c.calls| && c.User(i) == user ==> Insert(t, c.calls[i].row).error.None?)
    && (forall i, j :: 0 <= i < |c.calls| && 0 <= j < |c.calls| && i != j && c.User(i) == user
          ==> !Clash(c.calls[j].row, c.calls[i].row))
  }

  /** During a fault-free run: successes are exactly the added rows, uncommitted calls still
      fit, and a refusal means the limit is reached for good. */
  ghost predicate YieldInv(c: Config, s: State, user: Id, start: nat, limit: nat)
    requires |s.phases| == |c.calls|
  {
    && Count(s.committed, user) == start + |CreatedOf(c, s, user)|
    && (forall i :: 0 <= i < |c.calls| && c.User(i) == user && s.phases[i] != Done(Created)
          ==> Insert(s.committed, c.calls[i].row).error.None?)
    && (forall i :: 0 <= i < |c.calls| && c.User(i) == user && (s.phases[i].Aborting? || s.phases[i].Done?)
          ==> s.phases[i] == Done(Created) ||
              (s.phases[i].outcome == Refused(LimitReached) && Count(s.committed, user) >= limit))
  }

  lemma CreatedAfterCommit(c: Config, s: State, r: State, i: nat, user: Id)
    requires |s.phases| == |c.calls| && i < |c.calls| && s.phases[i].Inserted?
    requires r.phases == s.phases[i := Done(Created)]
    ensures |CreatedOf(c, r, user)| == |CreatedOf(c, s, user)| + (if c.User(i) == user then 1 else 0)
  {
    var before, after := CreatedOf(c, s, user), CreatedOf(c, r, user);
    assert i !in before;
    forall j | 0 <= j < |c.calls| && j != i ensures j in after <==> j in before {
      assert r.phases[j] == s.phases[j];
    }
    if c.User(i) == user {
      assert i in after;
      assert after == before + {i};
    } else {
      assert i !in after;
      assert after == before;
    }
  }

  lemma FitsBeside(t: seq<Apiary>, a: Apiary, b: Apiary)
    requires Insert(t, b).error.None? && b.Live() && !Clash(a, b)
    ensures Insert(t + [a], b).error.None?
  {
  }

  lemma YieldCommit(c: Config, s: State, i: nat, user: Id, start: nat, limit: nat)
    requires Inv(c, s) && YieldInv(c, s, user, start, limit) && Enabled(c, s, Commit(i))
    requires forall j, k :: 0 <= j < |c.calls| && 0 <= k < |c.calls| && j != k && c.User(j) == user
               ==> !Clash(c.calls[k].row, c.calls[j].row)
    ensures YieldInv(c, Apply(c, s, Commit(i)), user, start, limit)
  {
    var r := Apply(c, s, Commit(i));
    CountSnoc(s.committed, c.calls[i].row, user);
    CreatedAfterCommit(c, s, r, i, user);
    forall j | 0 <= j < |c.calls| && c.User(j) == user && r.phases[j] != Done(Created)
      ensures Insert(r.committed, c.calls[j].row).error.None?
    {
      FitsBeside(s.committed, c.calls[i].row, c.calls[j].row);
    }
  }

  /** A step that commits nothing leaves the rows alone, and refuses only at the limit. */
  lemma YieldPhase(c: Config, s: State, a: Action, user: Id, start: nat, limit: nat)
    requires Inv(c, s) && YieldInv(c, s, user, start, limit) && Enabled(c, s, a) && Advances(a) && !a.Commit?
    requires forall i :: 0 <= i < |c.calls| && c.User(i) == user ==> c.calls[i].limit == limit
    ensures YieldInv(c, Apply(c, s, a), user, start, limit)
  {
    var r := Apply(c, s, a);
    assert r.committed == s.committed && forall j :: 0 <= j < |c.calls| && j != a.i ==> r.phases[j] == s.phases[j];
    assert CreatedOf(c, r, user) == CreatedOf(c, s, user);
  }

  lemma YieldStep(c: Config, s: State, a: Action, user: Id, start: nat, limit: nat)
    requires Inv(c, s) && YieldInv(c, s, user, start, limit) && Enabled(c, s, a) && Advances(a)
    requires forall i :: 0 <= i < |c.calls| && c.User(i) == user ==> c.calls[i].limit == limit
    requires forall i, j :: 0 <= i < |c.calls| && 0 <= j < |c.calls| && i != j && c.User(i) == user
               ==> !Clash(c.calls[j].row, c.calls[i].row)
    ensures YieldInv(c, Apply(c, s, a), user, start, limit)
  {
    if a.Commit? {
      YieldCommit(c, s, a.i, user, start, limit);
    } else {
      YieldPhase(c, s, a, user, start, limit);
    }
  }

  lemma {:induction false} YieldRun(c: Config, s: State, acts: seq<Action>, user: Id, start: nat, limit: nat)
    requires Inv(c, s) && YieldInv(c, s, user, start, limit) && CanRun(c, s, acts) && FaultFree(acts)
    requires forall i :: 0 <= i < |c.calls| && c.User(i) == user ==> c.calls[i].limit == limit
    requires forall i, j :: 0 <= i < |c.calls| && 0 <= j < |c.calls| && i != j && c.User(i) == user
               ==> !Clash(c.calls[j].row, c.calls[i].row)
    ensures YieldInv(c, Final(c, s, acts), user, start, limit)
    decreases |acts|
  {
    if acts != [] {
      assert Advances(acts[0]);
      forall k | 0 <= k < |acts[1..]| ensures Advances(acts[1..][k]) {
        assert acts[1..][k] == acts[k + 1];
      }
      Step(c, s, acts[0]);
      YieldStep(c, s, acts[0], user, start, limit);
      YieldRun(c, Apply(c, s, acts[0]), acts[1..], user, start, limit);
    }
  }

  lemma {:induction false} NoBypass(acts: seq<Action>)
    requires FaultFree(acts)
    ensures Bypasses(acts) == multiset{}
  {
    if acts != [] {
      assert Advances(acts[0]);
      forall k | 0 <= k < |acts[1..]| ensures Advances(acts[1..][k]) {
        assert acts[1..][k] == acts[k + 1];
      }
      NoBypass(acts[1..]);
    }
  }

  /** Exact yield: of n fault-free fresh creates, all finished and nothing else writing,
      exactly as many succeed as there were free places. */
  lemma ExactYield(c: Config, s: State, acts: seq<Action>, user: Id, limit: nat)
    requires Initial(c, s) && CanRun(c, s, acts) && FaultFree(acts)
    requires forall i :: 0 <= i < |c.calls| && c.User(i) == user ==> c.calls[i].limit == limit
    requires FreshCalls(c, s.committed, user)
    requires forall i :: 0 <= i < |c.calls| && c.User(i) == user ==> Final(c, s, acts).phases[i].Done?
    ensures |CreatedOf(c, Final(c, s, acts), user)|
         == Min(|CallsOf(c, user)|, Max(0, limit - Count(s.committed, user)))
  {
    var start := Count(s.committed, user);
    var r := Final(c, s, acts);
    InitialInv(c, s);
    assert CreatedOf(c, s, user) == {};
    YieldRun(c, s, acts, user, start, limit);
    NoBypass(acts);
    CommittedBound(c, s, acts, user, Max(start, limit), 0);
    SubsetSize(CreatedOf(c, r, user), CallsOf(c, user));
    if CreatedOf(c, r, user) != CallsOf(c, user) {
      var i :| i in CallsOf(c, user) && i !in CreatedOf(c, r, user);
      assert Count(r.committed, user) >= limit;
    }
  }
}
