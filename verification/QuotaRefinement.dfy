/** Every interleaving of the quota protocol behaves like the atomic create: limit check, then
    name check, then insert, in one step taken somewhere between the call and its return. */
module QuotaRefinement {
  import opened Seqs
  import opened Domain
  import opened Table
  import opened QuotaProtocol

  /** The atomic service. `bypassed` counts the unlimited creates each user has had so far. */
  datatype Spec = Spec(table: seq<Apiary>, results: seq<Option<Outcome>>, bypassed: multiset<Id>)

  /** The atomic events. A create checks the call's limit raised by `over`, which is 0 unless
      unlimited creates came in between; `Unheard` is one that happened although its caller was
      told of an upstream failure; `Drop` is one that failed upstream and did nothing. */
  datatype Event = Create(i: nat, over: nat) | Unheard(i: nat, over: nat) | Drop(i: nat) | Plain(w: Write)

  function Attempt(c: Config, t: seq<Apiary>, i: nat, over: nat): Written
    requires i < |c.calls|
  {
    Table.CreateWithLimit(t, c.calls[i].row, c.calls[i].limit + over)
  }

  /** A call is answered once, its limit is raised no further than unlimited creates for its
      user have passed it by, and an unheard create is one that would have succeeded. */
  predicate Possible(c: Config, sp: Spec, e: Event) {
    e.Plain? ||
    (e.i < |sp.results| == |c.calls| && sp.results[e.i].None? &&
     (!e.Drop? ==> e.over <= sp.bypassed[c.User(e.i)]) &&
     (e.Unheard? ==> Attempt(c, sp.table, e.i, e.over).error.None?))
  }

  ghost function Happen(c: Config, sp: Spec, e: Event): Spec
    requires Possible(c, sp, e)
  {
    match e
    case Create(i, over) =>
      var w := Attempt(c, sp.table, i, over);
      sp.(table := w.table, results := sp.results[i := Some(if w.error.None? then Created else Refused(w.error.value))])
    case Unheard(i, over) =>
      sp.(table := Attempt(c, sp.table, i, over).table, results := sp.results[i := Some(Refused(Upstream))])
    case Drop(i) => sp.(results := sp.results[i := Some(Refused(Upstream))])
    case Plain(w) => sp.(table := AfterWrite(sp.table, w), bypassed := sp.bypassed + Bypass(Other(w)))
  }

  ghost predicate Explains(c: Config, sp: Spec, events: seq<Event>, end: Spec)
    decreases |events|
  {
    if events == [] then sp == end
    else Possible(c, sp, events[0]) && Explains(c, Happen(c, sp, events[0]), events[1..], end)
  }

  function Decision(p: Phase): Option<Outcome> {
    if p.Aborting? || p.Done? then Some(p.outcome) else None
  }

  function Abstraction(s: State, bypassed: multiset<Id>): Spec {
    Spec(s.committed, seq(|s.phases|, i requires 0 <= i < |s.phases| => Decision(s.phases[i])), bypassed)
  }

  /** How far the limit of call `i` has been passed by since the call counted. */
  function Over(c: Config, s: State, i: nat): nat
    requires i < |c.calls|
  {
    var count := Count(s.committed, c.User(i));
    if count < c.calls[i].limit then 0 else count + 1 - c.calls[i].limit
  }

  /** The linearisation points: a count that reaches the limit, an insert that is refused, the
      commit; and, for upstream failures, the step that fails. */
  function Linear(c: Config, s: State, a: Action): seq<Event>
    requires |s.phases| == |c.calls| && Enabled(c, s, a)
  {
    match a
    case Precheck(i) => if Count(s.committed, c.User(i)) >= c.calls[i].limit then [Event.Create(i, 0)] else []
    case CountRows(i) => if Count(s.committed, c.User(i)) >= c.calls[i].limit then [Event.Create(i, 0)] else []
    case InsertRow(i) =>
      if Insert(s.committed, c.calls[i].row).error.Some? then [Event.Create(i, Over(c, s, i))] else []
    case Commit(i) => [Event.Create(i, Over(c, s, i))]
    case CommitReplyLost(i) => [Unheard(i, Over(c, s, i))]
    case Fail(i) => [Drop(i)]
    case Other(w) => [Plain(w)]
    case _ => []
  }

  ghost function Linearised(c: Config, s: State, acts: seq<Action>): seq<Event>
    requires |s.phases| == |c.calls| && CanRun(c, s, acts)
    decreases |acts|
  {
    if acts == [] then [] else Linear(c, s, acts[0]) + Linearised(c, Apply(c, s, acts[0]), acts[1..])
  }

  ghost predicate AllQuotas(c: Config, s: State, bypassed: multiset<Id>)
    requires |s.phases| == |c.calls|
  {
    forall i :: 0 <= i < |c.calls| ==> QuotaInv(c, s, c.User(i), bypassed[c.User(i)])
  }

  /** Every step is no event, or one event the atomic service could take just then. */
  lemma StepRefines(c: Config, s: State, a: Action, bypassed: multiset<Id>)
    requires Inv(c, s) && AllQuotas(c, s, bypassed) && Enabled(c, s, a)
    ensures var l, before := Linear(c, s, a), Abstraction(s, bypassed);
            var after := Abstraction(Apply(c, s, a), bypassed + Bypass(a));
            if l == [] then before == after
            else |l| == 1 && Possible(c, before, l[0]) && Happen(c, before, l[0]) == after
  {
    var before, after := Abstraction(s, bypassed), Abstraction(Apply(c, s, a), bypassed + Bypass(a));
    if !a.Other? {
      assert QuotaInv(c, s, c.User(a.i), bypassed[c.User(a.i)]);
      assert after.results == before.results[a.i := Decision(Apply(c, s, a).phases[a.i])];
      assert bypassed + Bypass(a) == bypassed;
    }
  }

  lemma QuotasStep(c: Config, s: State, a: Action, bypassed: multiset<Id>)
    requires Inv(c, s) && AllQuotas(c, s, bypassed) && Enabled(c, s, a)
    ensures AllQuotas(c, Apply(c, s, a), bypassed + Bypass(a))
  {
    forall i | 0 <= i < |c.calls|
      ensures QuotaInv(c, Apply(c, s, a), c.User(i), (bypassed + Bypass(a))[c.User(i)])
    {
      QuotaStep(c, s, a, c.User(i), bypassed[c.User(i)]);
    }
  }

  /** Refinement over whole runs: the linearised events lead the atomic table and its answers
      from the abstraction of the first state to that of the last. */
  lemma {:induction false} RunRefines(c: Config, s: State, acts: seq<Action>, bypassed: multiset<Id>)
    requires Inv(c, s) && AllQuotas(c, s, bypassed) && CanRun(c, s, acts)
    ensures Explains(c, Abstraction(s, bypassed), Linearised(c, s, acts),
                     Abstraction(Final(c, s, acts), bypassed + Bypasses(acts)))
    decreases |acts|
  {
    if acts == [] {
      assert bypassed + multiset{} == bypassed;
    } else {
      var a, next := acts[0], Apply(c, s, acts[0]);
      StepRefines(c, s, a, bypassed);
      Step(c, s, a);
      QuotasStep(c, s, a, bypassed);
      RunRefines(c, next, acts[1..], bypassed + Bypass(a));
      assert bypassed + Bypass(a) + Bypasses(acts[1..]) == bypassed + Bypasses(acts);
      var l, rest := Linear(c, s, a), Linearised(c, next, acts[1..]);
      if l != [] {
        assert (l + rest)[1..] == rest;
      } else {
        assert l + rest == rest;
      }
    }
  }

  /** Every run, whatever its interleaving, its faults and its other writes, is a run of the
      atomic service. */
  lemma Refinement(c: Config, s: State, acts: seq<Action>)
    requires Initial(c, s) && CanRun(c, s, acts)
    ensures Explains(c, Abstraction(s, multiset{}), Linearised(c, s, acts),
                     Abstraction(Final(c, s, acts), Bypasses(acts)))
  {
    InitialInv(c, s);
    RunRefines(c, s, acts, multiset{});
    assert multiset{} + Bypasses(acts) == Bypasses(acts);
  }

  // ---- what an answer says about the table ----

  /** Nothing but call `i` itself can insert its row. */
  ghost predicate OnlyCall(c: Config, acts: seq<Action>, i: nat)
    requires i < |c.calls|
  {
    && (forall j :: 0 <= j < |c.calls| && j != i ==> c.calls[j].row.id != c.calls[i].row.id)
    && (forall k :: 0 <= k < |acts| && acts[k].Other? && acts[k].w.CreateUnlimited?
          ==> acts[k].w.row.id != c.calls[i].row.id)
  }

  predicate Commits(a: Action, i: nat) {
    a == Commit(i) || a == CommitReplyLost(i)
  }

  predicate Removes(a: Action, row: Apiary) {
    a == Other(Delete(row.userId, row.id)) || a == Other(Sweep(row.userId))
  }

  ghost predicate NoneRemoves(acts: seq<Action>, row: Apiary) {
    forall k :: 0 <= k < |acts| ==> !Removes(acts[k], row)
  }

  /** Call `i` commits at some point, and nothing removes its row afterwards. */
  ghost predicate Remains(acts: seq<Action>, i: nat, row: Apiary) {
    exists k :: 0 <= k < |acts| && Commits(acts[k], i) && NoneRemoves(acts[k + 1..], row)
  }

  lemma NoneRemovesCons(a: Action, rest: seq<Action>, row: Apiary)
    ensures NoneRemoves([a] + rest, row) <==> !Removes(a, row) && NoneRemoves(rest, row)
  {
    var acts := [a] + rest;
    assert acts[0] == a;
    forall k | 0 <= k < |rest| ensures rest[k] == acts[k + 1] {}
  }

  lemma SuffixCons(a: Action, rest: seq<Action>, k: nat)
    requires k <= |rest|
    ensures ([a] + rest)[k + 1..] == rest[k..]
  {
  }

  lemma RemainsCons(a: Action, rest: seq<Action>, i: nat, row: Apiary)
    ensures Remains([a] + rest, i, row) <==> Remains(rest, i, row) || (Commits(a, i) && NoneRemoves(rest, row))
  {
    var acts := [a] + rest;
    SuffixCons(a, rest, 0);
    assert rest[0..] == rest;
    if Remains(acts, i, row) {
      var k :| 0 <= k < |acts| && Commits(acts[k], i) && NoneRemoves(acts[k + 1..], row);
      SuffixCons(a, rest, k);
    }
    if Commits(a, i) && NoneRemoves(rest, row) {
      assert Commits(acts[0], i) && NoneRemoves(acts[1..], row);
    }
    if Remains(rest, i, row) {
      var k :| 0 <= k < |rest| && Commits(rest[k], i) && NoneRemoves(rest[k + 1..], row);
      SuffixCons(a, rest, k + 1);
      assert Commits(acts[k + 1], i);
    }
  }

  /** Every row with this id belongs to `user`. */
  ghost predicate OwnedId(t: seq<Apiary>, user: Id, id: Id) {
    forall a :: a in t && a.id == id ==> a.userId == user
  }

  lemma RewriteKeepsId(t: seq<Apiary>, a: Apiary, row: Apiary)
    requires OwnedId(t, row.userId, row.id)
    ensures OwnedId(Rewrite(t, a), row.userId, row.id)
    ensures HasId(Rewrite(t, a), row.id) <==> HasId(t, row.id)
  {
    var r := Rewrite(t, a);
    assert forall k :: 0 <= k < |t| ==> r[k].id == t[k].id && r[k].userId == t[k].userId;
    assert forall k :: 0 <= k < |t| ==> t[k] in t && r[k] in r;
  }

  lemma FilterKeepsId(t: seq<Apiary>, p: Apiary -> bool, row: Apiary)
    requires OwnedId(t, row.userId, row.id)
    requires forall a: Apiary :: a.id == row.id && a.userId == row.userId ==> p(a) == p(row)
    ensures OwnedId(Filter(t, p), row.userId, row.id)
    ensures HasId(Filter(t, p), row.id) <==> HasId(t, row.id) && p(row)
  {
  }

  lemma WriteKeepsId(t: seq<Apiary>, w: Write, row: Apiary)
    requires OwnedId(t, row.userId, row.id) && (w.CreateUnlimited? ==> w.row.id != row.id)
    ensures OwnedId(AfterWrite(t, w), row.userId, row.id)
    ensures HasId(AfterWrite(t, w), row.id) <==> HasId(t, row.id) && !Removes(Other(w), row)
  {
    match w
    case Delete(user, id) => FilterKeepsId(t, OtherThan(user, id), row);
    case Sweep(user) => FilterKeepsId(t, NotOwnedBy(user), row);
    case Edit(a) => RewriteKeepsId(t, a, row);
    case CreateUnlimited(a) =>
  }

  lemma StepKeepsId(c: Config, s: State, a: Action, i: nat)
    requires |s.phases| == |c.calls| && i < |c.calls| && Enabled(c, s, a) && OnlyCall(c, [a], i)
    requires OwnedId(s.committed, c.User(i), c.calls[i].row.id)
    ensures OwnedId(Apply(c, s, a).committed, c.User(i), c.calls[i].row.id)
    ensures HasId(Apply(c, s, a).committed, c.calls[i].row.id)
       <==> Commits(a, i) || (HasId(s.committed, c.calls[i].row.id) && !Removes(a, c.calls[i].row))
  {
    var row := c.calls[i].row;
    if a.Other? {
      assert [a][0] == a;
      WriteKeepsId(s.committed, a.w, row);
    } else if a.Commit? || a.CommitReplyLost? {
      var r := Apply(c, s, a).committed;
      assert r[|s.committed|] in r;
      assert forall b :: b in r <==> b in s.committed || b == c.calls[a.i].row;
    }
  }

  /** The row of a call is there exactly when the call, or what came before, put it there and
      nothing removed it since. */
  lemma {:induction false} RowIff(c: Config, s: State, acts: seq<Action>, i: nat)
    requires |s.phases| == |c.calls| && i < |c.calls| && CanRun(c, s, acts) && OnlyCall(c, acts, i)
    requires OwnedId(s.committed, c.User(i), c.calls[i].row.id)
    ensures var row := c.calls[i].row;
            HasId(Final(c, s, acts).committed, row.id)
            <==> Remains(acts, i, row) || (HasId(s.committed, row.id) && NoneRemoves(acts, row))
    decreases |acts|
  {
    if acts != [] {
      var a, rest := acts[0], acts[1..];
      assert acts == [a] + rest;
      StepKeepsId(c, s, a, i);
      RowIff(c, Apply(c, s, a), rest, i);
      RemainsCons(a, rest, i, c.calls[i].row);
      NoneRemovesCons(a, rest, c.calls[i].row);
    }
  }

  lemma {:induction false} DoneStays(c: Config, s: State, acts: seq<Action>, i: nat)
    requires |s.phases| == |c.calls| && i < |c.calls| && CanRun(c, s, acts) && s.phases[i].Done?
    ensures Final(c, s, acts).phases[i] == s.phases[i]
    decreases |acts|
  {
    if acts != [] {
      DoneStays(c, Apply(c, s, acts[0]), acts[1..], i);
    }
  }

  /** What a call that committed is told, for good. */
  lemma {:induction false} CommitAnswer(c: Config, s: State, acts: seq<Action>, i: nat)
    requires |s.phases| == |c.calls| && i < |c.calls| && CanRun(c, s, acts)
    ensures Commit(i) in acts ==> Final(c, s, acts).phases[i] == Done(Created)
    ensures CommitReplyLost(i) in acts ==> Final(c, s, acts).phases[i] == Done(Refused(Upstream))
    decreases |acts|
  {
    if acts != [] {
      var next := Apply(c, s, acts[0]);
      if Commits(acts[0], i) {
        DoneStays(c, next, acts[1..], i);
      }
      CommitAnswer(c, next, acts[1..], i);
    }
  }

  /** A refused call has left its row behind exactly when its commit's reply was lost and
      nothing has removed the row since; the refusal is then an upstream failure. */
  lemma RefusedLeavesNoRow(c: Config, s: State, acts: seq<Action>, i: nat)
    requires Initial(c, s) && CanRun(c, s, acts) && i < |c.calls| && OnlyCall(c, acts, i)
    requires !HasId(s.committed, c.calls[i].row.id)
    ensures var r, row := Final(c, s, acts), c.calls[i].row;
            r.phases[i].Done? && r.phases[i].outcome.Refused? ==>
              && (HasId(r.committed, row.id) <==> CommitReplyLost(i) in acts && Remains(acts, i, row))
              && (HasId(r.committed, row.id) ==> r.phases[i].outcome.error == Upstream)
  {
    RowIff(c, s, acts, i);
    CommitAnswer(c, s, acts, i);
  }
}
