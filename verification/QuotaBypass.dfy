/** What unlimited creates do to a limited one. They take no lock, so any number of them can
    come between its count and its insert: the quota is then exceeded by as many rows, and the
    new row need not be writable. */
module QuotaBypass {
  import opened Seqs
  import opened Domain
  import opened Ordering
  import opened Table
  import opened QuotaProtocol
  import opened Writability

  // ---- the writable flag a successful create reports ----

  lemma NewestWritable(t: seq<Apiary>, row: Apiary)
    requires Valid(t) && row.Live() && Insert(t, row).error.None?
    ensures row.id in WritableIDs(t + [row], row.userId, FREE_MAX_APIARIES)
       <==> forall a :: a in t && LiveOf(row.userId)(a) ==> !Before(a, row)
  {
    var r := t + [row];
    ValidInsert(t, row);
    WritableIffRank(r, row.userId, row.id, FREE_MAX_APIARIES);
    forall a | a in r && LiveRow(row.userId, row.id)(a) ensures a == row {
      SameId(r, a, row);
    }
    assert row in r;
    OlderIff(t, row);
  }

  lemma OlderIff(t: seq<Apiary>, row: Apiary)
    ensures Rank(t + [row], row.userId, row) == 0
       <==> forall a :: a in t && LiveOf(row.userId)(a) ==> !Before(a, row)
  {
    var r := t + [row];
    var older := Filter(r, OlderLive(row.userId, row));
    forall a ensures a in older <==> a in t && LiveOf(row.userId)(a) && Before(a, row) {
      assert a in r <==> a in t || a == row;
    }
    if older != [] {
      assert older[0] in older;
    }
  }

  /** A Free create reports its row writable. At its commit that is so exactly when no older
      row is there, and there are no rows but those of unlimited creates since the run began:
      without any, the new row is the writable set. */
  lemma CreatedIsWritable(c: Config, s: State, acts: seq<Action>, i: nat)
    requires Initial(c, s) && CanRun(c, s, acts) && i < |c.calls|
    requires c.calls[i].limit == FREE_MAX_APIARIES
    requires Enabled(c, Final(c, s, acts), Commit(i))
    ensures var r, row := Final(c, s, acts), c.calls[i].row;
            var ids := WritableIDs(Apply(c, r, Commit(i)).committed, c.User(i), FREE_MAX_APIARIES);
            && Count(r.committed, c.User(i)) <= Bypasses(acts)[c.User(i)]
            && (row.id in ids <==> forall a :: a in r.committed && LiveOf(c.User(i))(a) ==> !Before(a, row))
            && (Bypasses(acts)[c.User(i)] == 0 ==> ids == [row.id])
  {
    InitialInv(c, s);
    RunInv(c, s, acts);
    var r := Final(c, s, acts);
    assert QuotaInv(c, s, c.User(i), 0);
    assert QuotaInv(c, r, c.User(i), Bypasses(acts)[c.User(i)]);
    NewestWritable(r.committed, c.calls[i].row);
    if Count(r.committed, c.User(i)) == 0 {
      OnlyRowWritable(r.committed, c.calls[i].row, FREE_MAX_APIARIES);
    }
  }

  // ---- the bound on the excess is reached ----

  lemma ConsConcat(acts: seq<Action>, more: seq<Action>)
    requires acts != []
    ensures (acts + more)[0] == acts[0] && (acts + more)[1..] == acts[1..] + more
  {
  }

  lemma {:induction false} BypassesConcat(acts: seq<Action>, more: seq<Action>)
    ensures Bypasses(acts + more) == Bypasses(acts) + Bypasses(more)
  {
    if acts == [] {
      assert acts + more == more;
    } else {
      ConsConcat(acts, more);
      BypassesConcat(acts[1..], more);
    }
  }

  lemma {:induction false} RunMore(c: Config, s: State, acts: seq<Action>, more: seq<Action>)
    requires |s.phases| == |c.calls| && CanRun(c, s, acts) && CanRun(c, Final(c, s, acts), more)
    ensures CanRun(c, s, acts + more)
    ensures Final(c, s, acts + more) == Final(c, Final(c, s, acts), more)
    ensures Bypasses(acts + more) == Bypasses(acts) + Bypasses(more)
    decreases |acts|
  {
    BypassesConcat(acts, more);
    if acts == [] {
      assert acts + more == more;
    } else {
      RunMore(c, Apply(c, s, acts[0]), acts[1..], more);
      ConsConcat(acts, more);
    }
  }

  /** Every row can be inserted after the ones before it. */
  ghost predicate InTurn(t: seq<Apiary>, rows: seq<Apiary>)
    decreases |rows|
  {
    rows == [] || (rows[0].Live() && Insert(t, rows[0]).error.None? && InTurn(t + [rows[0]], rows[1..]))
  }

  ghost function Unlimited(rows: seq<Apiary>): seq<Action> {
    if rows == [] then [] else [Other(CreateUnlimited(rows[0]))] + Unlimited(rows[1..])
  }

  lemma ConcatCons(t: seq<Apiary>, rows: seq<Apiary>)
    requires rows != []
    ensures t + [rows[0]] + rows[1..] == t + rows
  {
  }

  lemma UnlimitedCons(rows: seq<Apiary>)
    requires rows != []
    ensures Unlimited(rows)[0] == Other(CreateUnlimited(rows[0]))
    ensures Unlimited(rows)[1..] == Unlimited(rows[1..])
  {
  }

  /** With nothing uncommitted, the rows go in one after the other. */
  lemma {:induction false} UnlimitedRun(c: Config, s: State, rows: seq<Apiary>)
    requires |s.phases| == |c.calls| && InTurn(s.committed, rows)
    requires forall j :: 0 <= j < |s.phases| ==> !Pending(s.phases[j])
    ensures CanRun(c, s, Unlimited(rows))
    ensures Final(c, s, Unlimited(rows)) == s.(committed := s.committed + rows)
    decreases |rows|
  {
    if rows == [] {
      assert s.committed + [] == s.committed;
    } else {
      var a := Other(CreateUnlimited(rows[0]));
      assert Enabled(c, s, a) && Apply(c, s, a) == s.(committed := s.committed + [rows[0]]);
      UnlimitedCons(rows);
      UnlimitedRun(c, Apply(c, s, a), rows[1..]);
      ConcatCons(s.committed, rows);
    }
  }

  lemma {:induction false} InTurnSnoc(t: seq<Apiary>, rows: seq<Apiary>, last: Apiary)
    requires InTurn(t, rows + [last])
    ensures InTurn(t, rows) && Insert(t + rows, last).error.None?
    decreases |rows|
  {
    if rows == [] {
      assert t + rows == t && rows + [last] == [last];
    } else {
      assert (rows + [last])[1..] == rows[1..] + [last];
      InTurnSnoc(t + [rows[0]], rows[1..], last);
      assert t + [rows[0]] + rows[1..] == t + rows;
    }
  }

  lemma {:induction false} CountMore(t: seq<Apiary>, rows: seq<Apiary>, user: Id)
    requires InTurn(t, rows) && forall r :: r in rows ==> r.userId == user
    ensures Count(t + rows, user) == Count(t, user) + |rows|
    ensures Bypasses(Unlimited(rows))[user] == |rows|
    decreases |rows|
  {
    if rows == [] {
      assert t + rows == t;
    } else {
      assert rows[0] in rows;
      CountSnoc(t, rows[0], user);
      CountMore(t + [rows[0]], rows[1..], user);
      ConcatCons(t, rows);
      UnlimitedCons(rows);
    }
  }

  lemma RunOne(c: Config, s: State, acts: seq<Action>, a: Action)
    requires |s.phases| == |c.calls| && CanRun(c, s, acts) && Enabled(c, Final(c, s, acts), a)
    ensures CanRun(c, s, acts + [a])
    ensures Final(c, s, acts + [a]) == Apply(c, Final(c, s, acts), a)
    ensures Bypasses(acts + [a]) == Bypasses(acts) + Bypass(a)
  {
    var r := Final(c, s, acts);
    assert [a][1..] == [];
    assert CanRun(c, Apply(c, r, a), []);
    RunMore(c, s, acts, [a]);
  }

  /** A call alone with its lock, up to its count. */
  lemma CountsFirst(c: Config, s: State, i: nat) returns (acts: seq<Action>)
    requires Initial(c, s) && i < |c.calls| && s.phases[i].Idle?
    requires Count(s.committed, c.User(i)) < c.calls[i].limit
    ensures CanRun(c, s, acts) && Bypasses(acts) == multiset{}
    ensures Final(c, s, acts) == State(s.committed, s.phases[i := Counted], map[c.Key(i) := i])
  {
    acts := [];
    RunOne(c, s, acts, Begin(i));
    acts := acts + [Begin(i)];
    RunOne(c, s, acts, Acquire(i));
    acts := acts + [Acquire(i)];
    RunOne(c, s, acts, CountRows(i));
    acts := acts + [CountRows(i)];
  }

  /** With nothing uncommitted in its way a call that has counted inserts and commits. */
  lemma InsertsAndCommits(c: Config, s: State, acts: seq<Action>, i: nat) returns (more: seq<Action>)
    requires |s.phases| == |c.calls| && i < |c.calls| && CanRun(c, s, acts)
    requires Final(c, s, acts).phases[i].Counted?
    requires forall j :: 0 <= j < |s.phases| ==> !Pending(Final(c, s, acts).phases[j])
    requires Insert(Final(c, s, acts).committed, c.calls[i].row).error.None?
    ensures CanRun(c, s, more) && Bypasses(more) == Bypasses(acts)
    ensures Final(c, s, more).committed == Final(c, s, acts).committed + [c.calls[i].row]
    ensures Final(c, s, more).phases == Final(c, s, acts).phases[i := Done(Created)]
  {
    InsertThenCommit(c, Final(c, s, acts), i);
    RunOne(c, s, acts, InsertRow(i));
    RunOne(c, s, acts + [InsertRow(i)], Commit(i));
    more := acts + [InsertRow(i)] + [Commit(i)];
  }

  lemma InsertThenCommit(c: Config, s: State, i: nat)
    requires |s.phases| == |c.calls| && i < |c.calls| && s.phases[i].Counted?
    requires forall j :: 0 <= j < |s.phases| ==> !Pending(s.phases[j])
    requires Insert(s.committed, c.calls[i].row).error.None?
    ensures Enabled(c, s, InsertRow(i)) && Enabled(c, Apply(c, s, InsertRow(i)), Commit(i))
    ensures var r := Apply(c, Apply(c, s, InsertRow(i)), Commit(i));
            r.committed == s.committed + [c.calls[i].row] && r.phases == s.phases[i := Done(Created)]
  {
  }

  lemma UpdatedTwice(ps: seq<Phase>, i: nat, p: Phase, q: Phase)
    requires i < |ps|
    ensures ps[i := p][i := q] == ps[i := q]
  {
  }

  lemma CountsThenBypassed(c: Config, s: State, i: nat, rows: seq<Apiary>) returns (acts: seq<Action>)
    requires Initial(c, s) && i < |c.calls| && s.phases[i].Idle?
    requires Count(s.committed, c.User(i)) < c.calls[i].limit && InTurn(s.committed, rows)
    ensures CanRun(c, s, acts) && Bypasses(acts) == Bypasses(Unlimited(rows))
    ensures Final(c, s, acts) == State(s.committed + rows, s.phases[i := Counted], map[c.Key(i) := i])
    ensures forall j :: 0 <= j < |s.phases| ==> !Pending(Final(c, s, acts).phases[j])
  {
    acts := CountsFirst(c, s, i);
    UnlimitedRun(c, Final(c, s, acts), rows);
    RunMore(c, s, acts, Unlimited(rows));
    acts := acts + Unlimited(rows);
  }

  /** The excess QuotaSafety allows is reached. From every first state in which an idle call
      could take the last place, and for any rows of its user that can be inserted in turn
      with the call's row after them, a run with an unlimited create for each of them creates
      the call's row too and ends above the limit by as many. */
  lemma ExcessIsReached(c: Config, s: State, i: nat, rows: seq<Apiary>) returns (acts: seq<Action>)
    requires Initial(c, s) && i < |c.calls| && s.phases[i].Idle?
    requires Count(s.committed, c.User(i)) + 1 == c.calls[i].limit
    requires InTurn(s.committed, rows + [c.calls[i].row]) && forall r :: r in rows ==> r.userId == c.User(i)
    ensures CanRun(c, s, acts) && Bypasses(acts)[c.User(i)] == |rows|
    ensures Final(c, s, acts).phases == s.phases[i := Done(Created)]
    ensures Final(c, s, acts).committed == s.committed + rows + [c.calls[i].row]
    ensures Count(Final(c, s, acts).committed, c.User(i)) == c.calls[i].limit + |rows|
  {
    InTurnSnoc(s.committed, rows, c.calls[i].row);
    CountMore(s.committed, rows, c.User(i));
    var before := CountsThenBypassed(c, s, i, rows);
    acts := InsertsAndCommits(c, s, before, i);
    CountSnoc(s.committed + rows, c.calls[i].row, c.User(i));
    UpdatedTwice(s.phases, i, Counted, Done(Created));
  }

  // ---- a sample ----

  function Sample(id: Id, name: string, createdAt: int): Apiary {
    Apiary(id, 7, name, "", "", None, None, [], createdAt, createdAt, None)
  }

  const MINE: Apiary := Sample(1, "mine", 20)
  const OTHER: Apiary := Sample(2, "other", 10)

  lemma SampleInTurn()
    ensures InTurn([], [OTHER] + [MINE])
    ensures Valid([OTHER]) && Insert([OTHER], MINE).error.None?
  {
    assert [] + [OTHER] == [OTHER] && ([OTHER] + [MINE])[1..] == [MINE] && [MINE][1..] == [];
    assert MINE.name[0] != OTHER.name[0];
    assert InTurn([OTHER], [MINE]);
  }

  /** One unlimited create between a limited create's count and its insert: the user ends over
      the limit, and the new row, reported writable, is not. */
  lemma BypassExceedsQuota() returns (c: Config, s: State, acts: seq<Action>)
    ensures Initial(c, s) && CanRun(c, s, acts)
    ensures |c.calls| == 1 && c.calls[0].limit == 1 && Count(s.committed, c.User(0)) == 0
    ensures var r := Final(c, s, acts);
            && r.phases == [Done(Created)]
            && Count(r.committed, c.User(0)) == 2
            && c.calls[0].row.id !in WritableIDs(r.committed, c.User(0), FREE_MAX_APIARIES)
  {
    c := Config([Call(MINE, 1)], (u: Id) => 0);
    s := State([], [Idle], map[]);
    SampleInTurn();
    acts := ExcessIsReached(c, s, 0, [OTHER]);
    assert [] + [OTHER] == [OTHER];
    NewestWritable([OTHER], MINE);
    assert OTHER in [OTHER] && Before(OTHER, MINE);
  }
}
