/** Deleting apiaries across four stores without a distributed transaction. */
module Cascade {
  import opened Seqs
  import opened Domain
  import opened Ordering
  import opened Table

  /** Something another service keeps: a hive or reminder of an apiary, or a user's file. */
  datatype Item = Item(id: Id, parent: Id)

  datatype World = World(rows: seq<Apiary>, hives: set<Item>, media: set<Item>, reminders: set<Item>)

  datatype Step =
    | DropHives(apiary: Id)
    | DropMedia(user: Id, ids: seq<Id>)
    | DropReminders(apiary: Id)
    | DropRow(user: Id, apiary: Id)

  /** Fault schedules: the fault of each coming call; past the end nothing breaks. */
  function Next(plan: seq<Fault>): Fault {
    if plan == [] then Works else plan[0]
  }

  function Rest(plan: seq<Fault>): seq<Fault> {
    if plan == [] then [] else plan[1..]
  }

  function Upset(f: Fault): Option<Error> {
    if f.Works? then None else Some(Upstream)
  }

  /** A deletion that breaks has removed the part of its targets it got to. */
  function Without(items: set<Item>, target: Item -> bool, f: Fault): set<Item> {
    set x | x in items && !(target(x) && (f.Works? || x.id in f.applied))
  }

  function ChildOf(parent: Id): Item -> bool {
    (x: Item) => x.parent == parent
  }

  function FileOf(user: Id, ids: seq<Id>): Item -> bool {
    (x: Item) => x.parent == user && x.id in ids
  }

  /** The world after one call, and the error the caller sees. */
  function Perform(w: World, s: Step, f: Fault): (World, Option<Error>) {
    match s
    case DropHives(a) => (w.(hives := Without(w.hives, ChildOf(a), f)), Upset(f))
    case DropMedia(u, ids) => (w.(media := Without(w.media, FileOf(u, ids), f)), Upset(f))
    case DropReminders(a) => (w.(reminders := Without(w.reminders, ChildOf(a), f)), Upset(f))
    case DropRow(u, a) =>
      var d := Delivered(w.rows, HardDelete(w.rows, u, a), a, f);
      (w.(rows := d.table), d.error)
  }

  /** A run of calls that stops at the first error: where it ends, the error and the call that
      raised it, the schedule left over, and the world after each call. */
  datatype Ran = Ran(world: World, error: Option<Error>, failed: Option<Step>, plan: seq<Fault>, seen: seq<World>)

  function Run(w: World, steps: seq<Step>, plan: seq<Fault>): Ran
    decreases |steps|
  {
    if steps == [] then Ran(w, None, None, plan, [])
    else
      var (next, error) := Perform(w, steps[0], Next(plan));
      if error.Some? then Ran(next, error, Some(steps[0]), Rest(plan), [next])
      else
        var r := Run(next, steps[1..], Rest(plan));
        r.(seen := [next] + r.seen)
  }

  function MediaSteps(user: Id, a: Apiary): seq<Step> {
    if a.images != [] then [DropMedia(user, a.images)] else []
  }

  function ReminderSteps(reminders: bool, a: Apiary): seq<Step> {
    if reminders then [DropReminders(a.id)] else []
  }

  /** deleteCascade: hives, then files, then reminders when configured, and the row last. */
  function Script(user: Id, reminders: bool, a: Apiary): seq<Step> {
    [DropHives(a.id)] + (MediaSteps(user, a) + (ReminderSteps(reminders, a) + [DropRow(user, a.id)]))
  }

  /** The batch loop; `done` counts the apiaries whose cascade went through. */
  datatype Batch = Batch(ran: Ran, done: nat)

  function RunBatch(w: World, user: Id, reminders: bool, list: seq<Apiary>, plan: seq<Fault>): Batch
    decreases |list|
  {
    if list == [] then Batch(Ran(w, None, None, plan, []), 0)
    else
      var r := Run(w, Script(user, reminders, list[0]), plan);
      if r.error.Some? then Batch(r, 0)
      else
        var b := RunBatch(r.world, user, reminders, list[1..], r.plan);
        Batch(b.ran.(seen := r.seen + b.ran.seen), b.done + 1)
  }

  /** ListAllByUser: soft-deleted rows too, oldest first. */
  function ListAll(t: seq<Apiary>, user: Id): seq<Apiary> {
    Sort(Asc, Filter(t, OwnedBy(user)))
  }

  function DeleteAll(w: World, user: Id, reminders: bool, plan: seq<Fault>): Batch {
    if Next(plan).Breaks? then Batch(Ran(w, Some(Upstream), None, Rest(plan), []), 0)
    else RunBatch(w, user, reminders, ListAll(w.rows, user), Rest(plan))
  }

  /** Delete: one live apiary of the caller, then its cascade. */
  function DeleteOne(w: World, user: Id, reminders: bool, id: Id, plan: seq<Fault>): Ran {
    if Next(plan).Breaks? then Ran(w, Some(Upstream), None, Rest(plan), [])
    else
      var found := GetByID(w.rows, user, id);
      if found.Err? then Ran(w, Some(found.error), None, Rest(plan), [])
      else Run(w, Script(user, reminders, found.value), Rest(plan))
  }

  /** A call that breaks is reported, and whatever part of its targets it reached is gone. */
  lemma BreaksPartWay(w: World, s: Step, applied: set<Id>)
    ensures var (x, error) := Perform(w, s, Breaks(applied));
            && error == Some(Upstream)
            && (forall h :: h in x.hives
                  <==> h in w.hives && !(s == DropHives(h.parent) && h.id in applied))
            && (forall m :: m in x.media
                  <==> m in w.media && !(s.DropMedia? && m.parent == s.user && m.id in s.ids && m.id in applied))
            && (forall r :: r in x.reminders
                  <==> r in w.reminders && !(s == DropReminders(r.parent) && r.id in applied))
            && (forall a :: a in x.rows
                  <==> a in w.rows && !(s == DropRow(a.userId, a.id) && a.id in applied))
  {
  }

  // ---- the reference: what a complete deletion leaves ----

  predicate Shown(list: seq<Apiary>, media: Id) {
    exists a :: a in list && media in a.images
  }

  function NotListed(user: Id, list: seq<Apiary>): Apiary -> bool {
    (a: Apiary) => !(a.userId == user && HasId(list, a.id))
  }

  /** The world without the listed apiaries of `user` and everything that hung on them. */
  function Purged(w: World, user: Id, reminders: bool, list: seq<Apiary>): World {
    World(
      Filter(w.rows, NotListed(user, list)),
      set x | x in w.hives && !HasId(list, x.parent),
      set x | x in w.media && !(x.parent == user && Shown(list, x.id)),
      set x | x in w.reminders && !(reminders && HasId(list, x.parent)))
  }

  /** A point a cascade over `a` can be at: other stores part-way, and the row gone only once
      everything else is. */
  ghost predicate MidCascade(w: World, user: Id, reminders: bool, a: Apiary, x: World) {
    var gone := Purged(w, user, reminders, [a]);
    && gone.hives <= x.hives <= w.hives
    && gone.media <= x.media <= w.media
    && gone.reminders <= x.reminders <= w.reminders
    && (x.rows == w.rows || x == gone)
  }

  lemma RunCons(w: World, s: Step, rest: seq<Step>, plan: seq<Fault>)
    ensures Run(w, [s] + rest, plan)
         == var p := Perform(w, s, Next(plan));
            if p.1.Some? then Ran(p.0, p.1, Some(s), Rest(plan), [p.0])
            else
              var r := Run(p.0, rest, Rest(plan));
              r.(seen := [p.0] + r.seen)
  {
    assert ([s] + rest)[1..] == rest;
  }

  lemma DropRowRemoves(w: World, user: Id, a: Apiary)
    requires DistinctIds(w.rows) && a in w.rows && a.userId == user
    ensures HardDelete(w.rows, user, a.id) == Written(Filter(w.rows, NotListed(user, [a])), None)
  {
    var rest := Filter(w.rows, OtherThan(user, a.id));
    FilterSame(w.rows, OtherThan(user, a.id), NotListed(user, [a]));
    assert a !in rest;
    if |rest| == |w.rows| {
      FilterWhole(w.rows, OtherThan(user, a.id));
      assert false;
    }
  }

  /** What a failing call leaves untouched: the calls come in the order hives, files,
      reminders, row, and none runs before the ones ahead of it are through. */
  ghost predicate StopsInOrder(w: World, user: Id, reminders: bool, a: Apiary, r: Ran) {
    var gone, x := Purged(w, user, reminders, [a]), r.world;
    r.failed.Some? ==>
      match r.failed.value
      case DropHives(_) => x == w.(hives := x.hives)
      case DropMedia(_, _) => x == w.(hives := gone.hives, media := x.media)
      case DropReminders(_) => x == w.(hives := gone.hives, media := gone.media, reminders := x.reminders)
      case DropRow(_, _) => x == gone || x == gone.(rows := w.rows)
  }

  /** The outcome every tail of a cascade guarantees, `w` being where the cascade began. */
  ghost predicate TailOutcome(w: World, user: Id, reminders: bool, a: Apiary, r: Ran, plan: seq<Fault>) {
    && (forall x :: x in r.seen ==> MidCascade(w, user, reminders, a, x))
    && MidCascade(w, user, reminders, a, r.world)
    && (r.error.None? ==> r.world == Purged(w, user, reminders, [a]))
    && (r.error.Some? <==> r.failed.Some?)
    && r.error != Some(NotFound)
    && StopsInOrder(w, user, reminders, a, r)
    && (r.failed.Some? && !r.failed.value.DropRow? ==> r.world.rows == w.rows)
    && (FaultFree(plan) ==> r.error.None? && FaultFree(r.plan))
  }

  ghost predicate FaultFree(plan: seq<Fault>) {
    forall k :: 0 <= k < |plan| ==> plan[k].Works?
  }

  lemma FromRow(w: World, x: World, user: Id, reminders: bool, a: Apiary, plan: seq<Fault>)
    requires DistinctIds(w.rows) && a in w.rows && a.userId == user
    requires x == Purged(w, user, reminders, [a]).(rows := w.rows)
    ensures TailOutcome(w, user, reminders, a, Run(x, [DropRow(user, a.id)], plan), plan)
  {
    DropRowRemoves(w, user, a);
    RunCons(x, DropRow(user, a.id), [], plan);
    assert [DropRow(user, a.id)] + [] == [DropRow(user, a.id)];
  }

  lemma FromReminders(w: World, x: World, user: Id, reminders: bool, a: Apiary, plan: seq<Fault>)
    requires DistinctIds(w.rows) && a in w.rows && a.userId == user
    requires x == Purged(w, user, reminders, [a]).(rows := w.rows, reminders := w.reminders)
    ensures TailOutcome(w, user, reminders, a, Run(x, ReminderSteps(reminders, a) + [DropRow(user, a.id)], plan), plan)
  {
    if reminders {
      RunCons(x, DropReminders(a.id), [DropRow(user, a.id)], plan);
      if Next(plan).Works? {
        FromRow(w, Perform(x, DropReminders(a.id), Works).0, user, reminders, a, Rest(plan));
      }
    } else {
      assert [] + [DropRow(user, a.id)] == [DropRow(user, a.id)];
      FromRow(w, x, user, reminders, a, plan);
    }
  }

  lemma FromMedia(w: World, x: World, user: Id, reminders: bool, a: Apiary, plan: seq<Fault>)
    requires DistinctIds(w.rows) && a in w.rows && a.userId == user
    requires x == w.(hives := Purged(w, user, reminders, [a]).hives)
    ensures TailOutcome(w, user, reminders, a,
              Run(x, MediaSteps(user, a) + (ReminderSteps(reminders, a) + [DropRow(user, a.id)]), plan), plan)
  {
    var tail := ReminderSteps(reminders, a) + [DropRow(user, a.id)];
    if a.images != [] {
      RunCons(x, DropMedia(user, a.images), tail, plan);
      if Next(plan).Works? {
        FromReminders(w, Perform(x, DropMedia(user, a.images), Works).0, user, reminders, a, Rest(plan));
      }
    } else {
      assert [] + tail == tail;
      FromReminders(w, x, user, reminders, a, plan);
    }
  }

  /** One cascade: every point on the way is safe, success leaves the reference world, and an
      error from another service leaves the row in place. */
  lemma CascadeOutcome(w: World, user: Id, reminders: bool, a: Apiary, plan: seq<Fault>)
    requires DistinctIds(w.rows) && a in w.rows && a.userId == user
    ensures TailOutcome(w, user, reminders, a, Run(w, Script(user, reminders, a), plan), plan)
  {
    RunCons(w, DropHives(a.id), MediaSteps(user, a) + (ReminderSteps(reminders, a) + [DropRow(user, a.id)]), plan);
    if Next(plan).Works? {
      FromMedia(w, Perform(w, DropHives(a.id), Works).0, user, reminders, a, Rest(plan));
    }
  }

  // ---- batches ----

  lemma HasIdConcat(list: seq<Apiary>, more: seq<Apiary>, id: Id)
    ensures HasId(list + more, id) <==> HasId(list, id) || HasId(more, id)
  {
    if a :| a in list && a.id == id {
      assert a in list + more;
    }
    if a :| a in more && a.id == id {
      assert a in list + more;
    }
  }

  lemma ShownConcat(list: seq<Apiary>, more: seq<Apiary>, id: Id)
    ensures Shown(list + more, id) <==> Shown(list, id) || Shown(more, id)
  {
    if a :| a in list && id in a.images {
      assert a in list + more;
    }
    if a :| a in more && id in a.images {
      assert a in list + more;
    }
  }

  lemma PurgedAgain(w: World, user: Id, reminders: bool, list: seq<Apiary>, more: seq<Apiary>)
    ensures Purged(Purged(w, user, reminders, list), user, reminders, more)
         == Purged(w, user, reminders, list + more)
  {
    forall id ensures HasId(list + more, id) <==> HasId(list, id) || HasId(more, id) {
      HasIdConcat(list, more, id);
    }
    forall id ensures Shown(list + more, id) <==> Shown(list, id) || Shown(more, id) {
      ShownConcat(list, more, id);
    }
    FilterFilter(w.rows, NotListed(user, list), NotListed(user, more), NotListed(user, list + more));
  }

  lemma PurgedNothing(w: World, user: Id, reminders: bool)
    ensures Purged(w, user, reminders, []) == w
  {
    FilterAll(w.rows, NotListed(user, []));
  }

  ghost predicate Listed(w: World, user: Id, list: seq<Apiary>) {
    DistinctIds(w.rows) && DistinctIds(list) && forall a :: a in list ==> a in w.rows && a.userId == user
  }

  /** Some apiary of the list was being cascaded, the ones before it completely gone. */
  ghost predicate MidBatch(w: World, user: Id, reminders: bool, list: seq<Apiary>, k: nat, x: World) {
    k < |list| && MidCascade(Purged(w, user, reminders, list[..k]), user, reminders, list[k], x)
  }

  lemma MidBatchShift(w: World, user: Id, reminders: bool, list: seq<Apiary>, k: nat, x: World)
    requires list != [] && MidBatch(Purged(w, user, reminders, [list[0]]), user, reminders, list[1..], k, x)
    ensures MidBatch(w, user, reminders, list, k + 1, x)
  {
    PurgedAgain(w, user, reminders, [list[0]], list[1..][..k]);
    assert [list[0]] + list[1..][..k] == list[..k + 1];
  }

  lemma ListedRest(w: World, user: Id, reminders: bool, list: seq<Apiary>)
    requires Listed(w, user, list) && list != []
    ensures Listed(Purged(w, user, reminders, [list[0]]), user, list[1..])
  {
    DistinctIdsFilter(w.rows, NotListed(user, [list[0]]));
    var r := Purged(w, user, reminders, [list[0]]).rows;
    forall a | a in list[1..] ensures a in r && a.userId == user {
      var i :| 0 <= i < |list| - 1 && list[1..][i] == a;
      assert list[i + 1] == a && a in list;
    }
  }

  /** DeleteAllByUser over a list: when it fails at position k the first k apiaries are
      completely gone, the k-th is part-way, and nothing later was touched; when it succeeds
      the world is the reference world. */
  lemma {:induction false} BatchOutcome(w: World, user: Id, reminders: bool, list: seq<Apiary>, plan: seq<Fault>)
    requires Listed(w, user, list)
    ensures BatchEnds(w, user, reminders, list, RunBatch(w, user, reminders, list, plan))
    ensures FaultFree(plan) ==> RunBatch(w, user, reminders, list, plan).ran.error.None?
    decreases |list|
  {
    PurgedNothing(w, user, reminders);
    if list != [] {
      FirstCascade(w, user, reminders, list, plan);
      var r := Run(w, Script(user, reminders, list[0]), plan);
      if r.error.None? {
        ListedRest(w, user, reminders, list);
        BatchOutcome(r.world, user, reminders, list[1..], r.plan);
        BatchEndsCons(w, user, reminders, list, RunBatch(r.world, user, reminders, list[1..], r.plan), r.seen);
      }
    }
  }

  ghost predicate BatchEnds(w: World, user: Id, reminders: bool, list: seq<Apiary>, b: Batch) {
    && b.done <= |list|
    && (b.ran.error.None? <==> b.done == |list|)
    && (b.ran.error.None? ==> b.ran.world == Purged(w, user, reminders, list))
    && (b.ran.error.Some? ==> MidBatch(w, user, reminders, list, b.done, b.ran.world))
  }

  lemma BatchEndsCons(w: World, user: Id, reminders: bool, list: seq<Apiary>, b: Batch, seen: seq<World>)
    requires list != [] && BatchEnds(Purged(w, user, reminders, [list[0]]), user, reminders, list[1..], b)
    ensures BatchEnds(w, user, reminders, list, Batch(b.ran.(seen := seen + b.ran.seen), b.done + 1))
  {
    if b.ran.error.Some? {
      MidBatchShift(w, user, reminders, list, b.done, b.ran.world);
    } else {
      PurgedAgain(w, user, reminders, [list[0]], list[1..]);
      assert [list[0]] + list[1..] == list;
    }
  }

  lemma FirstCascade(w: World, user: Id, reminders: bool, list: seq<Apiary>, plan: seq<Fault>)
    requires Listed(w, user, list) && list != []
    ensures var r := Run(w, Script(user, reminders, list[0]), plan);
            && (forall x :: x in r.seen ==> MidBatch(w, user, reminders, list, 0, x))
            && MidBatch(w, user, reminders, list, 0, r.world)
            && (r.error.None? ==> r.world == Purged(w, user, reminders, [list[0]]))
            && (FaultFree(plan) ==> r.error.None? && FaultFree(r.plan))
  {
    PurgedNothing(w, user, reminders);
    assert list[0] in list && list[..0] == [];
    CascadeOutcome(w, user, reminders, list[0], plan);
  }

  /** Every world a batch passes through is in the middle of some apiary's cascade. */
  lemma {:induction false} BatchSeen(w: World, user: Id, reminders: bool, list: seq<Apiary>, plan: seq<Fault>, x: World)
    returns (k: nat)
    requires Listed(w, user, list) && x in RunBatch(w, user, reminders, list, plan).ran.seen
    ensures MidBatch(w, user, reminders, list, k, x)
    decreases |list|
  {
    FirstCascade(w, user, reminders, list, plan);
    var r := Run(w, Script(user, reminders, list[0]), plan);
    if x in r.seen {
      k := 0;
    } else {
      ListedRest(w, user, reminders, list);
      k := BatchSeen(r.world, user, reminders, list[1..], r.plan, x);
      MidBatchShift(w, user, reminders, list, k, x);
      k := k + 1;
    }
  }

  // ---- safety ----

  function RowOf(t: seq<Apiary>): Apiary -> bool {
    (a: Apiary) => a in t
  }

  /** Nothing that hung on `a` is left. */
  ghost predicate Clean(user: Id, reminders: bool, a: Apiary, x: World) {
    && (forall h :: h in x.hives ==> h.parent != a.id)
    && (forall m :: m in x.media && m.parent == user ==> m.id !in a.images)
    && (reminders ==> forall r :: r in x.reminders ==> r.parent != a.id)
  }

  /** Only what hung on apiaries of `user` has disappeared from the other stores. */
  ghost predicate OnlyTheirs(w: World, user: Id, reminders: bool, x: World) {
    var theirs := Filter(w.rows, OwnedBy(user));
    && (forall h :: h in w.hives && h !in x.hives ==> HasId(theirs, h.parent))
    && (forall m :: m in w.media && m !in x.media ==> m.parent == user && Shown(theirs, m.id))
    && (forall r :: r in w.reminders && r !in x.reminders ==> reminders && HasId(theirs, r.parent))
  }

  /** From `w` to `x` only things of `user` went away, and no row before what hung on it. */
  ghost predicate Safely(w: World, user: Id, reminders: bool, x: World) {
    && x.rows == Filter(w.rows, RowOf(x.rows))
    && x.hives <= w.hives && x.media <= w.media && x.reminders <= w.reminders
    && (forall a :: a in w.rows && a !in x.rows ==> a.userId == user && Clean(user, reminders, a, x))
    && OnlyTheirs(w, user, reminders, x)
  }

  lemma SubsequenceFilter(t: seq<Apiary>, p: Apiary -> bool)
    ensures Filter(t, p) == Filter(t, RowOf(Filter(t, p)))
  {
    FilterSame(t, p, RowOf(Filter(t, p)));
  }

  lemma PurgedRows(w: World, user: Id, reminders: bool, list: seq<Apiary>)
    requires Listed(w, user, list)
    ensures forall a :: a in w.rows && a !in Purged(w, user, reminders, list).rows ==> a in list
  {
    forall a | a in w.rows && !NotListed(user, list)(a) ensures a in list {
      var b :| b in list && b.id == a.id;
      SameId(w.rows, a, b);
    }
  }

  lemma PurgedOnlyTheirs(w: World, user: Id, reminders: bool, list: seq<Apiary>)
    requires Listed(w, user, list)
    ensures OnlyTheirs(w, user, reminders, Purged(w, user, reminders, list))
  {
    var theirs := Filter(w.rows, OwnedBy(user));
    assert forall a :: a in list ==> a in theirs;
    assert forall id :: HasId(list, id) ==> HasId(theirs, id);
    assert forall id :: Shown(list, id) ==> Shown(theirs, id);
  }

  lemma PurgedSafely(w: World, user: Id, reminders: bool, list: seq<Apiary>)
    requires Listed(w, user, list)
    ensures Safely(w, user, reminders, Purged(w, user, reminders, list))
  {
    SubsequenceFilter(w.rows, NotListed(user, list));
    PurgedRows(w, user, reminders, list);
    PurgedOnlyTheirs(w, user, reminders, list);
    var x := Purged(w, user, reminders, list);
    forall a | a in w.rows && a !in x.rows ensures a.userId == user && Clean(user, reminders, a, x) {
      assert a in list;
    }
  }

  /** Part of the way, the same things are missing or fewer. */
  lemma OnlyTheirsSooner(w: World, user: Id, reminders: bool, x: World, y: World)
    requires OnlyTheirs(w, user, reminders, y)
    requires y.hives <= x.hives && y.media <= x.media && y.reminders <= x.reminders
    ensures OnlyTheirs(w, user, reminders, x)
  {
  }

  lemma MidCascadeSafely(w: World, user: Id, reminders: bool, a: Apiary, x: World)
    requires DistinctIds(w.rows) && a in w.rows && a.userId == user && MidCascade(w, user, reminders, a, x)
    ensures Safely(w, user, reminders, x)
  {
    PurgedSafely(w, user, reminders, [a]);
    OnlyTheirsSooner(w, user, reminders, x, Purged(w, user, reminders, [a]));
    if x.rows == w.rows {
      FilterAll(w.rows, RowOf(w.rows));
    }
  }

  lemma OnlyTheirsThen(w: World, user: Id, reminders: bool, x: World, y: World)
    requires forall a :: a in x.rows ==> a in w.rows
    requires OnlyTheirs(w, user, reminders, x) && OnlyTheirs(x, user, reminders, y)
    ensures OnlyTheirs(w, user, reminders, y)
  {
    var theirs, left := Filter(w.rows, OwnedBy(user)), Filter(x.rows, OwnedBy(user));
    assert forall a :: a in left ==> a in theirs;
    assert forall id :: HasId(left, id) ==> HasId(theirs, id);
    assert forall id :: Shown(left, id) ==> Shown(theirs, id);
  }

  lemma SafelyThen(w: World, user: Id, reminders: bool, x: World, y: World)
    requires Safely(w, user, reminders, x) && Safely(x, user, reminders, y)
    ensures Safely(w, user, reminders, y)
  {
    assert forall a :: a in x.rows ==> a in Filter(w.rows, RowOf(x.rows));
    assert forall a :: a in y.rows ==> a in Filter(x.rows, RowOf(y.rows));
    FilterFilter(w.rows, RowOf(x.rows), RowOf(y.rows), RowOf(y.rows));
    OnlyTheirsThen(w, user, reminders, x, y);
    forall a | a in w.rows && a !in y.rows ensures a.userId == user && Clean(user, reminders, a, y) {
      if a !in x.rows {
        assert Clean(user, reminders, a, x);
      }
    }
  }

  lemma MidBatchSafely(w: World, user: Id, reminders: bool, list: seq<Apiary>, k: nat, x: World)
    requires Listed(w, user, list) && MidBatch(w, user, reminders, list, k, x)
    ensures Safely(w, user, reminders, x)
  {
    var before := Purged(w, user, reminders, list[..k]);
    assert forall a :: a in list[..k] ==> a in list;
    PurgedSafely(w, user, reminders, list[..k]);
    DistinctIdsFilter(w.rows, NotListed(user, list[..k]));
    assert list[k] in list;
    assert list[k] in before.rows;
    MidCascadeSafely(before, user, reminders, list[k], x);
    SafelyThen(w, user, reminders, before, x);
  }

  lemma ListAllSorted(t: seq<Apiary>, user: Id)
    ensures Sorted(Asc, ListAll(t, user)) && multiset(ListAll(t, user)) == multiset(Filter(t, OwnedBy(user)))
  {
    SortProps(Asc, Filter(t, OwnedBy(user)));
  }

  lemma ListAllListed(w: World, user: Id)
    requires DistinctIds(w.rows)
    ensures Listed(w, user, ListAll(w.rows, user)) && Sorted(Asc, ListAll(w.rows, user))
    ensures forall a :: a in ListAll(w.rows, user) <==> a in w.rows && a.userId == user
  {
    SortProps(Asc, Filter(w.rows, OwnedBy(user)));
    DistinctIdsFilter(w.rows, OwnedBy(user));
    DistinctIdsSort(Asc, Filter(w.rows, OwnedBy(user)));
  }

  /** DeleteAllByUser, whatever breaks: the user's apiaries go one by one, oldest first and
      soft-deleted ones included; a failure at position k leaves exactly the first k gone and
      the later ones untouched, and success leaves nothing of any of them. */
  lemma DeleteAllOutcome(w: World, user: Id, reminders: bool, plan: seq<Fault>)
    requires DistinctIds(w.rows)
    ensures var b, list := DeleteAll(w, user, reminders, plan), ListAll(w.rows, user);
            && (b.ran.error.None? ==> b.done == |list| && b.ran.world == Purged(w, user, reminders, list))
            && (b.ran.error.Some? ==> b.ran.world == w || MidBatch(w, user, reminders, list, b.done, b.ran.world))
            && (FaultFree(plan) ==> b.ran.error.None?)
  {
    ListAllListed(w, user);
    BatchOutcome(w, user, reminders, ListAll(w.rows, user), Rest(plan));
  }

  lemma SafelyNothing(w: World, user: Id, reminders: bool)
    ensures Safely(w, user, reminders, w)
  {
    FilterAll(w.rows, RowOf(w.rows));
  }

  /** Cascade safety: after every call of an account deletion, under any fault schedule, a row
      that is gone has left nothing behind, and nothing of anyone else was touched. */
  lemma CascadeSafety(w: World, user: Id, reminders: bool, plan: seq<Fault>)
    requires DistinctIds(w.rows)
    ensures var b := DeleteAll(w, user, reminders, plan);
            && Safely(w, user, reminders, b.ran.world)
            && forall x :: x in b.ran.seen ==> Safely(w, user, reminders, x)
  {
    var list := ListAll(w.rows, user);
    var b := DeleteAll(w, user, reminders, plan);
    ListAllListed(w, user);
    SafelyNothing(w, user, reminders);
    if Next(plan).Works? {
      BatchOutcome(w, user, reminders, list, Rest(plan));
      if b.ran.error.None? {
        PurgedSafely(w, user, reminders, list);
      } else {
        MidBatchSafely(w, user, reminders, list, b.done, b.ran.world);
      }
      forall x | x in b.ran.seen ensures Safely(w, user, reminders, x) {
        var k := BatchSeen(w, user, reminders, list, Rest(plan), x);
        MidBatchSafely(w, user, reminders, list, k, x);
      }
    }
  }

  /** Deleting one apiary is just as safe, and complete when it reports success. */
  lemma DeleteOneSafety(w: World, user: Id, reminders: bool, id: Id, plan: seq<Fault>)
    requires DistinctIds(w.rows)
    ensures var r := DeleteOne(w, user, reminders, id, plan);
            && Safely(w, user, reminders, r.world)
            && (forall x :: x in r.seen ==> Safely(w, user, reminders, x))
            && (r.error.None? ==> exists a :: a in w.rows && LiveRow(user, id)(a)
                                              && r.world == Purged(w, user, reminders, [a]))
            && (r.error == Some(NotFound) ==> r.world == w)
            && (FaultFree(plan) ==> (r.error.None? <==> exists a :: a in w.rows && LiveRow(user, id)(a)))
  {
    SafelyNothing(w, user, reminders);
    GetByIDProps(w.rows, user, id);
    var found := GetByID(w.rows, user, id);
    if Next(plan).Works? && found.Ok? {
      var a := found.value;
      CascadeOutcome(w, user, reminders, a, Rest(plan));
      var r := Run(w, Script(user, reminders, a), Rest(plan));
      MidCascadeSafely(w, user, reminders, a, r.world);
      forall x | x in r.seen ensures Safely(w, user, reminders, x) {
        MidCascadeSafely(w, user, reminders, a, x);
      }
    }
  }

  // ---- exactly the calls that are needed ----

  /** The fault of the k-th call to come. */
  function At(plan: seq<Fault>, k: nat): Fault {
    if k < |plan| then plan[k] else Works
  }

  ghost predicate FirstWork(plan: seq<Fault>, n: nat) {
    forall k :: 0 <= k < n ==> At(plan, k).Works?
  }

  function Skip(plan: seq<Fault>, n: nat): seq<Fault> {
    if n == 0 then plan else Skip(Rest(plan), n - 1)
  }

  lemma FirstWorkCons(plan: seq<Fault>, n: nat)
    ensures FirstWork(plan, n + 1) <==> Next(plan).Works? && FirstWork(Rest(plan), n)
  {
    assert forall k: nat :: At(Rest(plan), k) == At(plan, k + 1);
    assert At(plan, 0) == Next(plan);
    if FirstWork(plan, n + 1) {
      forall k | 0 <= k < n ensures At(Rest(plan), k).Works? {
        assert At(plan, k + 1).Works?;
      }
    }
    if Next(plan).Works? && FirstWork(Rest(plan), n) {
      forall k | 0 <= k < n + 1 ensures At(plan, k).Works? {
        assert k > 0 ==> At(Rest(plan), k - 1).Works?;
      }
    }
  }

  lemma {:induction false} FirstWorkSplit(plan: seq<Fault>, m: nat, n: nat)
    ensures FirstWork(plan, m + n) <==> FirstWork(plan, m) && FirstWork(Skip(plan, m), n)
    decreases m
  {
    if m > 0 {
      FirstWorkCons(plan, m - 1 + n);
      FirstWorkCons(plan, m - 1);
      FirstWorkSplit(Rest(plan), m - 1, n);
    }
  }

  lemma {:induction false} SkipSplit(plan: seq<Fault>, m: nat, n: nat)
    ensures Skip(Skip(plan, m), n) == Skip(plan, m + n)
    decreases m
  {
    if m > 0 {
      SkipSplit(Rest(plan), m - 1, n);
    }
  }

  lemma FewCalls(plan: seq<Fault>)
    ensures FirstWork(plan, 0) && (FirstWork(plan, 1) <==> Next(plan).Works?)
    ensures FirstWork(plan, 2) <==> Next(plan).Works? && Next(Rest(plan)).Works?
    ensures FirstWork(plan, 3) <==> Next(plan).Works? && Next(Rest(plan)).Works? && Next(Rest(Rest(plan))).Works?
    ensures Skip(plan, 0) == plan && Skip(plan, 1) == Rest(plan) && Skip(plan, 2) == Rest(Rest(plan))
    ensures Skip(plan, 3) == Rest(Rest(Rest(plan)))
  {
    FirstWorkCons(plan, 0);
    FirstWorkCons(plan, 1);
    FirstWorkCons(plan, 2);
    FirstWorkCons(Rest(plan), 0);
    FirstWorkCons(Rest(plan), 1);
    FirstWorkCons(Rest(Rest(plan)), 0);
    SkipCons(plan, 0);
    SkipCons(plan, 1);
    SkipCons(plan, 2);
    SkipCons(Rest(plan), 0);
    SkipCons(Rest(plan), 1);
    SkipCons(Rest(Rest(plan)), 0);
  }

  lemma SkipCons(plan: seq<Fault>, n: nat)
    ensures Skip(plan, n + 1) == Skip(Rest(plan), n)
  {
  }

  /** A run makes one call per step until one fails, each under its own fault. */
  lemma {:induction false} RunCalls(w: World, steps: seq<Step>, plan: seq<Fault>)
    ensures var r := Run(w, steps, plan);
            && (r.error.None? ==> FirstWork(plan, |steps|) && r.plan == Skip(plan, |steps|) && |r.seen| == |steps|)
            && (r.error == Some(Upstream) ==> !FirstWork(plan, |steps|))
            && (r.error.Some? ==> r.error == Some(Upstream) || r.error == Some(NotFound))
    decreases |steps|
  {
    if steps != [] {
      FirstWorkCons(plan, |steps| - 1);
      RunCalls(Perform(w, steps[0], Next(plan)).0, steps[1..], Rest(plan));
    }
  }

  /** The calls one cascade needs: the files only when there are any, and the reminders only
      when configured. */
  function CallsFor(reminders: bool, a: Apiary): nat {
    2 + (if a.images != [] then 1 else 0) + (if reminders then 1 else 0)
  }

  function TotalCalls(reminders: bool, list: seq<Apiary>): nat {
    if list == [] then 0 else CallsFor(reminders, list[0]) + TotalCalls(reminders, list[1..])
  }

  /** A cascade goes through exactly when the calls it needs all work, and makes no other. */
  lemma CascadeCalls(w: World, user: Id, reminders: bool, a: Apiary, plan: seq<Fault>)
    requires DistinctIds(w.rows) && a in w.rows && a.userId == user
    ensures var r := Run(w, Script(user, reminders, a), plan);
            && (r.error.None? <==> FirstWork(plan, CallsFor(reminders, a)))
            && (r.error.None? ==> |r.seen| == CallsFor(reminders, a) && r.plan == Skip(plan, CallsFor(reminders, a)))
            && (r.error.Some? ==> r.error == Some(Upstream))
  {
    CascadeOutcome(w, user, reminders, a, plan);
    RunCalls(w, Script(user, reminders, a), plan);
  }

  lemma {:induction false} BatchCalls(w: World, user: Id, reminders: bool, list: seq<Apiary>, plan: seq<Fault>)
    requires Listed(w, user, list)
    ensures RunBatch(w, user, reminders, list, plan).ran.error.None? <==> FirstWork(plan, TotalCalls(reminders, list))
    decreases |list|
  {
    if list != [] {
      assert list[0] in list;
      CascadeOutcome(w, user, reminders, list[0], plan);
      CascadeCalls(w, user, reminders, list[0], plan);
      FirstWorkSplit(plan, CallsFor(reminders, list[0]), TotalCalls(reminders, list[1..]));
      var r := Run(w, Script(user, reminders, list[0]), plan);
      if r.error.None? {
        ListedRest(w, user, reminders, list);
        BatchCalls(r.world, user, reminders, list[1..], r.plan);
      }
    }
  }

  /** An account deletion succeeds exactly when its listing and every call its cascades need
      work. */
  lemma DeleteAllCalls(w: World, user: Id, reminders: bool, plan: seq<Fault>)
    requires DistinctIds(w.rows)
    ensures DeleteAll(w, user, reminders, plan).ran.error.None?
       <==> FirstWork(plan, 1 + TotalCalls(reminders, ListAll(w.rows, user)))
  {
    ListAllListed(w, user);
    FirstWorkCons(plan, TotalCalls(reminders, ListAll(w.rows, user)));
    BatchCalls(w, user, reminders, ListAll(w.rows, user), Rest(plan));
  }

  /** What one deletion answers: upstream when a call it needs breaks, otherwise NotFound
      exactly when the caller has no live row with the id. */
  lemma DeleteOneAnswer(w: World, user: Id, reminders: bool, id: Id, plan: seq<Fault>)
    requires DistinctIds(w.rows)
    ensures var error := DeleteOne(w, user, reminders, id, plan).error;
            && (error == Some(NotFound)
                <==> Next(plan).Works? && !exists a :: a in w.rows && LiveRow(user, id)(a))
            && (error.None?
                <==> exists a :: a in w.rows && LiveRow(user, id)(a) && FirstWork(plan, 1 + CallsFor(reminders, a)))
            && (error.Some? ==> error == Some(NotFound) || error == Some(Upstream))
  {
    GetByIDProps(w.rows, user, id);
    var found := GetByID(w.rows, user, id);
    if found.Ok? {
      var a := found.value;
      FirstWorkCons(plan, CallsFor(reminders, a));
      CascadeCalls(w, user, reminders, a, Rest(plan));
      forall b | b in w.rows && LiveRow(user, id)(b) ensures b == a {
        SameId(w.rows, a, b);
      }
    }
  }

  // ---- oldest first ----

  /** Of the user's rows in `t`, those gone from `left` are older than every one still there. */
  ghost predicate OldestGone(t: seq<Apiary>, user: Id, left: seq<Apiary>) {
    forall a, b :: a in t && a.userId == user && a !in left && b in t && b.userId == user && b in left ==> Before(a, b)
  }

  lemma InTake(list: seq<Apiary>, j: nat, k: nat)
    requires j < |list| && k <= |list|
    ensures j < k ==> list[j] in list[..k]
  {
  }

  lemma PrefixOldest(w: World, user: Id, reminders: bool, list: seq<Apiary>, k: nat)
    requires Listed(w, user, list) && Sorted(Asc, list) && k <= |list|
    requires forall a :: a in w.rows && a.userId == user ==> a in list
    ensures OldestGone(w.rows, user, Purged(w, user, reminders, list[..k]).rows)
  {
    var left := Purged(w, user, reminders, list[..k]).rows;
    PurgedRows(w, user, reminders, list[..k]);
    forall a, b | a in w.rows && a.userId == user && a !in left && b in w.rows && b.userId == user && b in left
      ensures Before(a, b)
    {
      assert b !in list[..k];
      var i :| 0 <= i < k && list[..k][i] == a;
      var j :| 0 <= j < |list| && list[j] == b;
      InTake(list, j, k);
      assert InOrder(Asc, list[i], list[j]);
    }
  }

  lemma MidBatchOldest(w: World, user: Id, reminders: bool, list: seq<Apiary>, k: nat, x: World)
    requires Listed(w, user, list) && Sorted(Asc, list) && MidBatch(w, user, reminders, list, k, x)
    requires forall a :: a in w.rows && a.userId == user ==> a in list
    ensures OldestGone(w.rows, user, x.rows)
  {
    PrefixOldest(w, user, reminders, list, k);
    PrefixOldest(w, user, reminders, list, k + 1);
    PurgedAgain(w, user, reminders, list[..k], [list[k]]);
    assert list[..k] + [list[k]] == list[..k + 1];
  }

  /** An account deletion takes the user's apiaries from the oldest on: at its end and after
      every call, whatever breaks, each row that is gone is older than each one still there. */
  lemma OldestFirst(w: World, user: Id, reminders: bool, plan: seq<Fault>)
    requires DistinctIds(w.rows)
    ensures var b := DeleteAll(w, user, reminders, plan);
            && OldestGone(w.rows, user, b.ran.world.rows)
            && forall x :: x in b.ran.seen ==> OldestGone(w.rows, user, x.rows)
  {
    var list := ListAll(w.rows, user);
    var b := DeleteAll(w, user, reminders, plan);
    ListAllListed(w, user);
    if Next(plan).Works? {
      BatchOutcome(w, user, reminders, list, Rest(plan));
      if b.ran.error.None? {
        PrefixOldest(w, user, reminders, list, |list|);
        assert list[..|list|] == list;
      } else {
        MidBatchOldest(w, user, reminders, list, b.done, b.ran.world);
      }
      forall x | x in b.ran.seen ensures OldestGone(w.rows, user, x.rows) {
        var k := BatchSeen(w, user, reminders, list, Rest(plan), x);
        MidBatchOldest(w, user, reminders, list, k, x);
      }
    }
  }

  // ---- files that several apiaries list ----

  /** Every file a live apiary lists is still stored for its owner. */
  ghost predicate FilesExist(w: World) {
    forall a, m :: a in w.rows && a.Live() && m in a.images ==> Item(m, a.userId) in w.media
  }

  lemma DeleteOneUndisturbed(w: World, user: Id, reminders: bool, a: Apiary, plan: seq<Fault>)
    requires DistinctIds(w.rows) && a in w.rows && LiveOf(user)(a) && FaultFree(plan)
    ensures DeleteOne(w, user, reminders, a.id, plan).world == Purged(w, user, reminders, [a])
  {
    GetByIDProps(w.rows, user, a.id);
    CascadeOutcome(w, user, reminders, a, Rest(plan));
  }

  lemma PurgedOne(w: World, user: Id, reminders: bool, a: Apiary)
    requires DistinctIds(w.rows) && a in w.rows && a.userId == user
    ensures var x := Purged(w, user, reminders, [a]);
            && (forall b :: b in x.rows <==> b in w.rows && b.id != a.id)
            && (forall m :: m in x.media <==> m in w.media && !(m.parent == user && m.id in a.images))
  {
    var x := Purged(w, user, reminders, [a]);
    forall b ensures b in x.rows <==> b in w.rows && b.id != a.id {
      if b in w.rows && b.id == a.id {
        SameId(w.rows, a, b);
        assert a in [a];
      }
    }
    forall m ensures m in x.media <==> m in w.media && !(m.parent == user && m.id in a.images) {
      assert m.id in a.images ==> a in [a] && Shown([a], m.id);
    }
  }

  /** Media ids are not exclusive to one apiary: deleting an apiary removes a file that another
      one lists exactly when the deleted one lists it too. */
  lemma SharedFileGoes(w: World, user: Id, reminders: bool, a: Apiary, b: Apiary, m: Id, plan: seq<Fault>)
    requires DistinctIds(w.rows) && a in w.rows && b in w.rows && LiveOf(user)(a) && a.id != b.id
    requires m in b.images && Item(m, user) in w.media && FaultFree(plan)
    ensures var x := DeleteOne(w, user, reminders, a.id, plan).world;
            b in x.rows && (Item(m, user) !in x.media <==> m in a.images)
  {
    DeleteOneUndisturbed(w, user, reminders, a, plan);
    PurgedOne(w, user, reminders, a);
  }

  /** The live apiary with this id lists a file that another live apiary of the user lists. */
  ghost predicate Shares(t: seq<Apiary>, user: Id, id: Id) {
    exists a, b, m :: a in t && LiveRow(user, id)(a) && b in t && LiveOf(user)(b) && b.id != id
                      && m in a.images && m in b.images
  }

  lemma PurgedFiles(w: World, user: Id, reminders: bool, a: Apiary)
    requires DistinctIds(w.rows) && a in w.rows && LiveOf(user)(a) && FilesExist(w)
    ensures FilesExist(Purged(w, user, reminders, [a])) <==> !Shares(w.rows, user, a.id)
  {
    var x := Purged(w, user, reminders, [a]);
    PurgedOne(w, user, reminders, a);
    if Shares(w.rows, user, a.id) {
      var c, b, m :| c in w.rows && LiveRow(user, a.id)(c) && b in w.rows && LiveOf(user)(b) && b.id != a.id
                     && m in c.images && m in b.images;
      SameId(w.rows, a, c);
      assert b in x.rows && Item(m, b.userId) !in x.media;
    }
  }

  /** So a deletion leaves every listed file in place exactly when the deleted apiary shares
      none with another live apiary of its owner. */
  lemma FilesExistIff(w: World, user: Id, reminders: bool, id: Id, plan: seq<Fault>)
    requires DistinctIds(w.rows) && FaultFree(plan) && FilesExist(w)
    ensures FilesExist(DeleteOne(w, user, reminders, id, plan).world) <==> !Shares(w.rows, user, id)
  {
    GetByIDProps(w.rows, user, id);
    var found := GetByID(w.rows, user, id);
    if found.Ok? {
      DeleteOneUndisturbed(w, user, reminders, found.value, plan);
      PurgedFiles(w, user, reminders, found.value);
    }
  }

  // ---- retries converge ----

  /** What a complete account deletion leaves. */
  function Goal(w: World, user: Id, reminders: bool): World {
    Purged(w, user, reminders, ListAll(w.rows, user))
  }

  lemma SameOwned(w: World, user: Id)
    requires DistinctIds(w.rows)
    ensures forall id :: HasId(ListAll(w.rows, user), id) <==> HasId(Filter(w.rows, OwnedBy(user)), id)
    ensures forall id :: Shown(ListAll(w.rows, user), id) <==> Shown(Filter(w.rows, OwnedBy(user)), id)
    ensures Goal(w, user, true).rows == DeleteAllByUserHard(w.rows, user)
  {
    ListAllListed(w, user);
    var l, o := ListAll(w.rows, user), Filter(w.rows, OwnedBy(user));
    assert forall a :: a in l <==> a in o;
    FilterSame(w.rows, NotListed(user, l), NotOwnedBy(user));
  }

  /** A row of the user listed before but not after is one of the deleted rows. */
  lemma ListedBefore(w: World, user: Id, reminders: bool, x: World)
    requires DistinctIds(w.rows) && DistinctIds(x.rows) && Safely(w, user, reminders, x)
    ensures forall a :: a in ListAll(x.rows, user) ==> a in ListAll(w.rows, user)
    ensures forall a :: a in ListAll(w.rows, user) && a !in ListAll(x.rows, user)
              ==> a in w.rows && a !in x.rows && Clean(user, reminders, a, x)
  {
    ListAllListed(w, user);
    ListAllListed(x, user);
    assert forall a :: a in x.rows ==> a in Filter(w.rows, RowOf(x.rows));
  }

  lemma SameGoalStores(w: World, user: Id, reminders: bool, x: World)
    requires DistinctIds(w.rows) && DistinctIds(x.rows) && Safely(w, user, reminders, x)
    ensures Goal(x, user, reminders).hives == Goal(w, user, reminders).hives
    ensures Goal(x, user, reminders).media == Goal(w, user, reminders).media
    ensures Goal(x, user, reminders).reminders == Goal(w, user, reminders).reminders
  {
    SameOwned(w, user);
    ListedBefore(w, user, reminders, x);
    var lw, lx := ListAll(w.rows, user), ListAll(x.rows, user);
    forall h | h in x.hives ensures HasId(lw, h.parent) <==> HasId(lx, h.parent) {
      if a :| a in lw && a.id == h.parent {
        assert a !in lx ==> Clean(user, reminders, a, x);
      }
    }
    forall m | m in x.media && m.parent == user ensures Shown(lw, m.id) <==> Shown(lx, m.id) {
      if a :| a in lw && m.id in a.images {
        assert a !in lx ==> Clean(user, reminders, a, x);
      }
    }
    forall r | r in x.reminders && reminders ensures HasId(lw, r.parent) <==> HasId(lx, r.parent) {
      if a :| a in lw && a.id == r.parent {
        assert a !in lx ==> Clean(user, reminders, a, x);
      }
    }
  }

  /** Getting part of the way does not change where the way leads. */
  lemma SafelyKeepsGoal(w: World, user: Id, reminders: bool, x: World)
    requires DistinctIds(w.rows) && Safely(w, user, reminders, x)
    ensures DistinctIds(x.rows) && Goal(x, user, reminders) == Goal(w, user, reminders)
  {
    DistinctIdsFilter(w.rows, RowOf(x.rows));
    SameGoalStores(w, user, reminders, x);
    SameOwned(w, user);
    SameOwned(x, user);
    FilterFilter(w.rows, RowOf(x.rows), NotOwnedBy(user), NotOwnedBy(user));
  }

  /** The world after a series of attempts, each under its own fault schedule. */
  function Attempts(w: World, user: Id, reminders: bool, plans: seq<seq<Fault>>): World {
    if plans == [] then w
    else DeleteAll(Attempts(w, user, reminders, plans[..|plans| - 1]), user, reminders, plans[|plans| - 1]).ran.world
  }

  lemma {:induction false} AttemptsKeepGoal(w: World, user: Id, reminders: bool, plans: seq<seq<Fault>>)
    requires DistinctIds(w.rows)
    ensures DistinctIds(Attempts(w, user, reminders, plans).rows)
    ensures Goal(Attempts(w, user, reminders, plans), user, reminders) == Goal(w, user, reminders)
  {
    if plans != [] {
      var before := Attempts(w, user, reminders, plans[..|plans| - 1]);
      AttemptsKeepGoal(w, user, reminders, plans[..|plans| - 1]);
      CascadeSafety(before, user, reminders, plans[|plans| - 1]);
      SafelyKeepsGoal(before, user, reminders, Attempts(w, user, reminders, plans));
    }
  }

  /** Retry convergence: whatever failed before, an attempt that reports success ends in the
      state a single undisturbed deletion reaches, and an undisturbed attempt does succeed. */
  lemma RetryConverges(w: World, user: Id, reminders: bool, plans: seq<seq<Fault>>, last: seq<Fault>)
    requires DistinctIds(w.rows)
    ensures var b := DeleteAll(Attempts(w, user, reminders, plans), user, reminders, last);
            && (b.ran.error.None? ==> b.ran.world == Goal(w, user, reminders))
            && (FaultFree(last) ==> b.ran.error.None?)
  {
    var before := Attempts(w, user, reminders, plans);
    AttemptsKeepGoal(w, user, reminders, plans);
    ListAllListed(before, user);
    BatchOutcome(before, user, reminders, ListAll(before.rows, user), Rest(last));
  }

  /** The one-statement account sweep and a successful cascade leave the same table. */
  lemma SweepAgrees(w: World, user: Id, reminders: bool, plan: seq<Fault>)
    requires DistinctIds(w.rows)
    requires DeleteAll(w, user, reminders, plan).ran.error.None?
    ensures DeleteAll(w, user, reminders, plan).ran.world.rows == DeleteAllByUserHard(w.rows, user)
  {
    RetryConverges(w, user, reminders, [], plan);
    SameOwned(w, user);
  }
}
