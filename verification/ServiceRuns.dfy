/** Runs of the service: what every sequence of requests keeps, whatever breaks on the way, and
    why one user's requests neither see nor touch another user's rows. */
module ServiceRuns {
  import opened Seqs
  import opened Domain
  import opened Ordering
  import opened Table
  import opened Cascade
  import opened ListQuery
  import Writability
  import S = ServiceSpec

  /** The requests that may write. */
  datatype Request =
    | Create(user: Id, entitlement: string, input: S.CreateInput, id: Id, now: int)
    | Update(user: Id, entitlement: string, id: Id, change: S.UpdateInput, now: int)
    | Delete(user: Id, id: Id)
    | DeleteAllByUser(user: Id)
    | DeleteLocalByUser(user: Id)

  datatype Reply = Row(result: Result<S.WithAccess>) | Status(error: Option<Error>)

  function Serve(w: World, reminders: bool, r: Request, plan: seq<Fault>): (World, Reply) {
    match r
    case Create(user, entitlement, input, id, now) =>
      var s := S.Create(w.rows, w.media, user, entitlement, input, id, now, plan);
      (w.(rows := s.rows), Row(s.result))
    case Update(user, entitlement, id, input, now) =>
      var s := S.Update(w.rows, w.media, user, entitlement, id, input, now, plan);
      (w.(rows := s.rows), Row(s.result))
    case Delete(user, id) =>
      var d := DeleteOne(w, user, reminders, id, plan);
      (d.world, Status(d.error))
    case DeleteAllByUser(user) =>
      var d := DeleteAll(w, user, reminders, plan).ran;
      (d.world, Status(d.error))
    case DeleteLocalByUser(user) =>
      var d := Delivered(w.rows, Written(DeleteAllByUserHard(w.rows, user), None), user, Next(plan));
      (w.(rows := d.table), Status(d.error))
  }

  /** A request with the faults its calls meet. */
  datatype Attempt = Attempt(request: Request, plan: seq<Fault>)

  function ServeAll(w: World, reminders: bool, attempts: seq<Attempt>): World
    decreases |attempts|
  {
    if attempts == [] then w
    else ServeAll(Serve(w, reminders, attempts[0].request, attempts[0].plan).0, reminders, attempts[1..])
  }

  // ---- what every run keeps ----

  /** Unique ids, unique live names per user, and image lists without repeats within the limit. */
  ghost predicate Good(t: seq<Apiary>) {
    Valid(t) && forall a :: a in t ==> S.GoodImages(a)
  }

  lemma GoodFilter(t: seq<Apiary>, p: Apiary -> bool)
    requires Good(t)
    ensures Good(Filter(t, p))
  {
    ValidFilter(t, p);
  }

  lemma RewriteGoodImages(t: seq<Apiary>, a: Apiary)
    requires S.GoodImages(a) && forall r :: r in t ==> S.GoodImages(r)
    ensures forall r :: r in Table.Update(t, a).table ==> S.GoodImages(r)
  {
    var u := Table.Update(t, a).table;
    forall r | r in u ensures S.GoodImages(r) {
      var i :| 0 <= i < |u| && u[i] == r;
      assert t[i] in t;
    }
  }

  lemma DeletionSafety(w: World, reminders: bool, r: Request, plan: seq<Fault>)
    requires DistinctIds(w.rows) && !r.Create? && !r.Update?
    ensures var x := Serve(w, reminders, r, plan).0;
            && x.rows == Filter(w.rows, RowOf(x.rows))
            && forall a :: a in w.rows && a !in x.rows ==> a.userId == r.user
  {
    match r
    case Delete(user, id) => DeleteOneSafety(w, user, reminders, id, plan);
    case DeleteAllByUser(user) => CascadeSafety(w, user, reminders, plan);
    case DeleteLocalByUser(user) => SweepSafety(w.rows, user, Next(plan));
  }

  lemma SweepSafety(t: seq<Apiary>, user: Id, f: Fault)
    ensures var x := Delivered(t, Written(DeleteAllByUserHard(t, user), None), user, f).table;
            x == Filter(t, RowOf(x)) && forall a :: a in t && a !in x ==> a.userId == user
  {
    SubsequenceFilter(t, NotOwnedBy(user));
    FilterAll(t, RowOf(t));
  }

  lemma ServeGood(w: World, reminders: bool, r: Request, plan: seq<Fault>)
    requires Good(w.rows)
    ensures Good(Serve(w, reminders, r, plan).0.rows)
  {
    match r
    case Create(user, entitlement, input, id, now) =>
      S.PreparedCreate(w.rows, w.media, user, entitlement, input, id, now, plan);
      var p := S.PrepareCreate(w.rows, w.media, user, entitlement, input, id, now, plan);
      if p.result.Ok? {
        ValidInsert(w.rows, p.result.value.0);
      }
    case Update(user, entitlement, id, input, now) =>
      S.PreparedUpdate(w.rows, w.media, user, entitlement, id, input, now, plan);
      var p := S.PrepareUpdate(w.rows, w.media, user, entitlement, id, input, now, plan);
      if p.result.Ok? {
        ValidUpdate(w.rows, p.result.value);
        RewriteGoodImages(w.rows, p.result.value);
      }
    case _ =>
      DeletionSafety(w, reminders, r, plan);
      GoodFilter(w.rows, RowOf(Serve(w, reminders, r, plan).0.rows));
  }

  /** Table invariants over all runs: every sequence of requests under any faults keeps a good
      table good. The empty table is one. */
  lemma {:induction false} RunsKeepGood(w: World, reminders: bool, attempts: seq<Attempt>)
    requires Good(w.rows)
    ensures Good(ServeAll(w, reminders, attempts).rows)
    decreases |attempts|
  {
    if attempts != [] {
      ServeGood(w, reminders, attempts[0].request, attempts[0].plan);
      RunsKeepGood(Serve(w, reminders, attempts[0].request, attempts[0].plan).0, reminders, attempts[1..]);
    }
  }

  /** Every row of `x` with this id was there before, with the same owner and age. */
  ghost predicate SameIdentity(t: seq<Apiary>, x: seq<Apiary>, id: Id) {
    forall b :: b in x && b.id == id ==>
      exists a :: a in t && a.id == id && a.userId == b.userId && a.createdAt == b.createdAt
  }

  lemma RewriteIdentity(t: seq<Apiary>, a: Apiary, id: Id)
    ensures SameIdentity(t, Table.Update(t, a).table, id)
  {
    var u := Table.Update(t, a).table;
    forall b | b in u && b.id == id
      ensures exists o :: o in t && o.id == id && o.userId == b.userId && o.createdAt == b.createdAt
    {
      var i :| 0 <= i < |u| && u[i] == b;
      assert t[i] in t;
    }
  }

  /** Rows that only went away, or one row with another id that came, change no identity. */
  lemma KeptIdentity(t: seq<Apiary>, x: seq<Apiary>, id: Id)
    requires forall b :: b in x && b.id == id ==> b in t
    ensures SameIdentity(t, x, id)
  {
  }

  lemma CreateIdentity(w: World, user: Id, entitlement: string, input: S.CreateInput, i: Id, now: int, plan: seq<Fault>, id: Id)
    requires i != id
    ensures SameIdentity(w.rows, S.Create(w.rows, w.media, user, entitlement, input, i, now, plan).rows, id)
  {
    S.PreparedCreate(w.rows, w.media, user, entitlement, input, i, now, plan);
    KeptIdentity(w.rows, S.Create(w.rows, w.media, user, entitlement, input, i, now, plan).rows, id);
  }

  lemma UpdateIdentity(w: World, user: Id, entitlement: string, i: Id, input: S.UpdateInput, now: int, plan: seq<Fault>, id: Id)
    ensures SameIdentity(w.rows, S.Update(w.rows, w.media, user, entitlement, i, input, now, plan).rows, id)
  {
    KeptIdentity(w.rows, w.rows, id);
    var p := S.PrepareUpdate(w.rows, w.media, user, entitlement, i, input, now, plan);
    if p.result.Ok? {
      RewriteIdentity(w.rows, p.result.value, id);
    }
  }

  lemma ServeIdentity(w: World, reminders: bool, r: Request, plan: seq<Fault>, id: Id)
    requires DistinctIds(w.rows) && (r.Create? ==> r.id != id)
    ensures SameIdentity(w.rows, Serve(w, reminders, r, plan).0.rows, id)
  {
    match r
    case Create(user, entitlement, input, i, now) => CreateIdentity(w, user, entitlement, input, i, now, plan, id);
    case Update(user, entitlement, i, input, now) => UpdateIdentity(w, user, entitlement, i, input, now, plan, id);
    case _ =>
      DeletionSafety(w, reminders, r, plan);
      KeptIdentity(w.rows, Serve(w, reminders, r, plan).0.rows, id);
  }

  /** A row's owner and creation time never change, over any run that does not generate its id again. */
  lemma {:induction false} RunsKeepIdentity(w: World, reminders: bool, attempts: seq<Attempt>, id: Id)
    requires Good(w.rows)
    requires forall k :: 0 <= k < |attempts| && attempts[k].request.Create? ==> attempts[k].request.id != id
    ensures SameIdentity(w.rows, ServeAll(w, reminders, attempts).rows, id)
    decreases |attempts|
  {
    if attempts != [] {
      var next := Serve(w, reminders, attempts[0].request, attempts[0].plan).0;
      ServeGood(w, reminders, attempts[0].request, attempts[0].plan);
      ServeIdentity(w, reminders, attempts[0].request, attempts[0].plan, id);
      RunsKeepIdentity(next, reminders, attempts[1..], id);
    }
  }

  // ---- attached files ----

  lemma VettedExist(files: set<Item>, user: Id, images: seq<Id>, plan: seq<Fault>)
    ensures var v := S.VetImages(files, user, images, plan).result;
            v.Ok? ==> S.AllOwned(files, user, v.value)
  {
  }

  lemma CreateKeepsFiles(w: World, user: Id, entitlement: string, input: S.CreateInput, id: Id, now: int, plan: seq<Fault>)
    requires FilesExist(w)
    ensures FilesExist(w.(rows := S.Create(w.rows, w.media, user, entitlement, input, id, now, plan).rows))
  {
    VettedExist(w.media, user, input.images, S.CreateLimit(w.rows, user, entitlement, plan).plan);
  }

  lemma RewriteKeepsFiles(w: World, a: Apiary)
    requires FilesExist(w) && S.AllOwned(w.media, a.userId, a.images)
    ensures FilesExist(w.(rows := Table.Update(w.rows, a).table))
  {
    var u := Table.Update(w.rows, a).table;
    forall r, m | r in u && r.Live() && m in r.images ensures Item(m, r.userId) in w.media {
      var i :| 0 <= i < |u| && u[i] == r;
      assert w.rows[i] in w.rows;
    }
  }

  lemma UpdateKeepsFiles(w: World, user: Id, entitlement: string, id: Id, input: S.UpdateInput, now: int, plan: seq<Fault>)
    requires DistinctIds(w.rows) && FilesExist(w)
    ensures FilesExist(w.(rows := S.Update(w.rows, w.media, user, entitlement, id, input, now, plan).rows))
  {
    GetByIDProps(w.rows, user, id);
    S.PreparedUpdate(w.rows, w.media, user, entitlement, id, input, now, plan);
    var p := S.PrepareUpdate(w.rows, w.media, user, entitlement, id, input, now, plan);
    if p.result.Ok? {
      if input.images.Some? {
        VettedExist(w.media, user, input.images.value, S.WriteAccess(w.rows, user, entitlement, id, Rest(plan)).plan);
      }
      RewriteKeepsFiles(w, p.result.value);
    }
  }

  lemma AccountKeepsFiles(w: World, reminders: bool, user: Id, plan: seq<Fault>)
    requires DistinctIds(w.rows) && FilesExist(w) && FaultFree(plan)
    ensures FilesExist(DeleteAll(w, user, reminders, plan).ran.world)
  {
    DeleteAllOutcome(w, user, reminders, plan);
    ListAllListed(w, user);
    var x := DeleteAll(w, user, reminders, plan).ran.world;
    forall a | a in x.rows ensures a in w.rows && a.userId != user {
      assert a.userId == user ==> a in ListAll(w.rows, user);
    }
  }

  /** Creates, updates and the sweep never leave a live apiary listing a file that is gone,
      whatever breaks. Undisturbed, no request does, unless it deletes an apiary that shares a
      file with another live apiary of its owner; then it always does. */
  lemma FilesExistAfter(w: World, reminders: bool, r: Request, plan: seq<Fault>)
    requires DistinctIds(w.rows) && FilesExist(w)
    ensures !r.Delete? && !r.DeleteAllByUser? ==> FilesExist(Serve(w, reminders, r, plan).0)
    ensures FaultFree(plan) ==>
              (FilesExist(Serve(w, reminders, r, plan).0) <==> !(r.Delete? && Shares(w.rows, r.user, r.id)))
  {
    match r
    case Create(user, entitlement, input, id, now) => CreateKeepsFiles(w, user, entitlement, input, id, now, plan);
    case Update(user, entitlement, id, input, now) => UpdateKeepsFiles(w, user, entitlement, id, input, now, plan);
    case Delete(user, id) =>
      if FaultFree(plan) {
        FilesExistIff(w, user, reminders, id, plan);
      }
    case DeleteAllByUser(user) =>
      if FaultFree(plan) {
        AccountKeepsFiles(w, reminders, user, plan);
      }
    case DeleteLocalByUser(user) =>
  }

  // ---- users do not touch each other ----

  lemma WriteOthers(t: seq<Apiary>, w: Written, id: Id, f: Fault, user: Id)
    requires Filter(w.table, NotOwnedBy(user)) == Filter(t, NotOwnedBy(user))
    ensures Filter(Delivered(t, w, id, f).table, NotOwnedBy(user)) == Filter(t, NotOwnedBy(user))
  {
  }

  lemma CreateOthers(w: World, user: Id, entitlement: string, input: S.CreateInput, id: Id, now: int, plan: seq<Fault>)
    ensures Filter(S.Create(w.rows, w.media, user, entitlement, input, id, now, plan).rows, NotOwnedBy(user))
         == Filter(w.rows, NotOwnedBy(user))
  {
    S.PreparedCreate(w.rows, w.media, user, entitlement, input, id, now, plan);
    var p := S.PrepareCreate(w.rows, w.media, user, entitlement, input, id, now, plan);
    if p.result.Ok? {
      var a := p.result.value.0;
      FilterSnoc(w.rows, a, NotOwnedBy(user));
      WriteOthers(w.rows, CreateWithLimit(w.rows, a, p.result.value.1), id, Next(p.plan), user);
    }
  }

  lemma UpdateOthers(w: World, user: Id, entitlement: string, id: Id, input: S.UpdateInput, now: int, plan: seq<Fault>)
    requires DistinctIds(w.rows)
    ensures Filter(S.Update(w.rows, w.media, user, entitlement, id, input, now, plan).rows, NotOwnedBy(user))
         == Filter(w.rows, NotOwnedBy(user))
  {
    S.PreparedUpdate(w.rows, w.media, user, entitlement, id, input, now, plan);
    var p := S.PrepareUpdate(w.rows, w.media, user, entitlement, id, input, now, plan);
    if p.result.Ok? {
      RewriteOthers(w.rows, p.result.value);
      WriteOthers(w.rows, Table.Update(w.rows, p.result.value), id, Next(p.plan), user);
    }
  }

  /** A request of one user leaves every other user's rows as they were, even when it breaks. */
  lemma OthersUntouched(w: World, reminders: bool, r: Request, plan: seq<Fault>)
    requires DistinctIds(w.rows)
    ensures Filter(Serve(w, reminders, r, plan).0.rows, NotOwnedBy(r.user)) == Filter(w.rows, NotOwnedBy(r.user))
  {
    match r
    case Create(user, entitlement, input, id, now) => CreateOthers(w, user, entitlement, input, id, now, plan);
    case Update(user, entitlement, id, input, now) => UpdateOthers(w, user, entitlement, id, input, now, plan);
    case _ =>
      var x := Serve(w, reminders, r, plan).0;
      DeletionSafety(w, reminders, r, plan);
      FilterFilter(w.rows, RowOf(x.rows), NotOwnedBy(r.user), NotOwnedBy(r.user));
  }

  lemma RewriteOthers(t: seq<Apiary>, a: Apiary)
    ensures Filter(Rewrite(t, a), NotOwnedBy(a.userId)) == Filter(t, NotOwnedBy(a.userId))
  {
    RewriteFilter(t, a, NotOwnedBy(a.userId));
    var f := Filter(t, NotOwnedBy(a.userId));
    forall i | 0 <= i < |f| ensures Rewrite(f, a)[i] == f[i] {
      assert f[i] in f;
    }
    assert Rewrite(f, a) == f;
  }

  // ---- users do not see each other ----

  function Own(t: seq<Apiary>, user: Id): seq<Apiary> {
    Filter(t, OwnedBy(user))
  }

  /** The world as if nobody but `user` had apiaries. */
  function Alone(w: World, user: Id): World {
    w.(rows := Own(w.rows, user))
  }

  lemma OwnFilter(t: seq<Apiary>, user: Id, p: Apiary -> bool)
    requires forall a :: p(a) ==> a.userId == user
    ensures Filter(Own(t, user), p) == Filter(t, p)
  {
    FilterFilter(t, OwnedBy(user), p, p);
  }

  lemma OwnReads(t: seq<Apiary>, user: Id)
    ensures Count(Own(t, user), user) == Count(t, user)
    ensures Writability.WritableIDs(Own(t, user), user, FREE_MAX_APIARIES)
         == Writability.WritableIDs(t, user, FREE_MAX_APIARIES)
    ensures ListAll(Own(t, user), user) == ListAll(t, user)
  {
    OwnFilter(t, user, LiveOf(user));
    OwnFilter(t, user, OwnedBy(user));
  }

  lemma OwnGet(t: seq<Apiary>, user: Id, id: Id)
    ensures GetByID(Own(t, user), user, id) == GetByID(t, user, id)
  {
    OwnFilter(t, user, LiveRow(user, id));
  }

  lemma OwnNames(t: seq<Apiary>, user: Id, name: string, id: Id)
    ensures NameHeld(Own(t, user), user, name, id) == NameHeld(t, user, name, id)
  {
  }

  lemma OwnAnswers(t: seq<Apiary>, user: Id, entitlement: string, id: Id, plan: seq<Fault>)
    ensures S.ResolveWritable(t, user, entitlement, id, plan) == S.ResolveWritable(Own(t, user), user, entitlement, id, plan)
    ensures forall page ::
              S.FlagPage(t, user, entitlement, page, plan) == S.FlagPage(Own(t, user), user, entitlement, page, plan)
    ensures S.WritableApiaryID(t, user, entitlement, plan) == S.WritableApiaryID(Own(t, user), user, entitlement, plan)
  {
    OwnReads(t, user);
  }

  /** What a user reads depends on that user's rows alone. */
  lemma ReadsAreLocal(fold: char -> char, t: seq<Apiary>, user: Id, entitlement: string, id: Id, page: nat, limit: nat,
                      search: Option<string>, sortOrder: Option<string>, withoutHives: bool, hiveIds: seq<Id>,
                      plan: seq<Fault>)
    requires page >= 1
    ensures S.Get(t, user, entitlement, id, plan) == S.Get(Own(t, user), user, entitlement, id, plan)
    ensures S.WritableApiaryID(t, user, entitlement, plan) == S.WritableApiaryID(Own(t, user), user, entitlement, plan)
    ensures S.List(fold, t, user, entitlement, page, limit, search, sortOrder, withoutHives, hiveIds, plan)
         == S.List(fold, Own(t, user), user, entitlement, page, limit, search, sortOrder, withoutHives, hiveIds, plan)
  {
    OwnGet(t, user, id);
    OwnAnswers(t, user, entitlement, id, Rest(plan));
    OwnAnswers(t, user, entitlement, id, plan);
    OwnAnswers(t, user, entitlement, id, Rest(Rest(plan)));
    var f := Filters(search, withoutHives, if withoutHives then Some(hiveIds) else None);
    forall a | Wanted(fold, user, f)(a) ensures a.userId == user {
      assert LiveOf(user)(a);
    }
    OwnFilter(t, user, Wanted(fold, user, f));
  }

  lemma OwnInsert(t: seq<Apiary>, a: Apiary)
    requires HasId(t, a.id) ==> HasId(Own(t, a.userId), a.id)
    ensures var w, o := Insert(t, a), Insert(Own(t, a.userId), a);
            o.error == w.error && o.table == Own(w.table, a.userId)
  {
    OwnNames(t, a.userId, a.name, a.id);
    FilterSnoc(t, a, OwnedBy(a.userId));
    FilterAll(Own(t, a.userId), OwnedBy(a.userId));
  }

  lemma PrepareCreateLocal(w: World, user: Id, entitlement: string, input: S.CreateInput, id: Id, now: int, plan: seq<Fault>)
    ensures S.PrepareCreate(Own(w.rows, user), w.media, user, entitlement, input, id, now, plan)
         == S.PrepareCreate(w.rows, w.media, user, entitlement, input, id, now, plan)
  {
    OwnReads(w.rows, user);
  }

  lemma CreateLocal(w: World, user: Id, entitlement: string, input: S.CreateInput, id: Id, now: int, plan: seq<Fault>)
    requires HasId(w.rows, id) ==> HasId(Own(w.rows, user), id)
    ensures var s := S.Create(w.rows, w.media, user, entitlement, input, id, now, plan);
            S.Create(Own(w.rows, user), w.media, user, entitlement, input, id, now, plan)
            == s.(rows := Own(s.rows, user))
  {
    PrepareCreateLocal(w, user, entitlement, input, id, now, plan);
    S.PreparedCreate(w.rows, w.media, user, entitlement, input, id, now, plan);
    var p := S.PrepareCreate(w.rows, w.media, user, entitlement, input, id, now, plan);
    if p.result.Ok? {
      OwnReads(w.rows, user);
      OwnInsert(w.rows, p.result.value.0);
    }
  }

  lemma OwnUpdate(t: seq<Apiary>, a: Apiary)
    ensures var w, o := Table.Update(t, a), Table.Update(Own(t, a.userId), a);
            o.error == w.error && o.table == Own(w.table, a.userId)
  {
    OwnNames(t, a.userId, a.name, a.id);
    OwnFilter(t, a.userId, LiveRow(a.userId, a.id));
    RewriteFilter(t, a, OwnedBy(a.userId));
  }

  lemma PrepareUpdateLocal(w: World, user: Id, entitlement: string, id: Id, input: S.UpdateInput, now: int, plan: seq<Fault>)
    ensures S.PrepareUpdate(Own(w.rows, user), w.media, user, entitlement, id, input, now, plan)
         == S.PrepareUpdate(w.rows, w.media, user, entitlement, id, input, now, plan)
  {
    OwnGet(w.rows, user, id);
    OwnAnswers(w.rows, user, entitlement, id, Rest(plan));
  }

  lemma UpdateLocal(w: World, user: Id, entitlement: string, id: Id, input: S.UpdateInput, now: int, plan: seq<Fault>)
    requires DistinctIds(w.rows)
    ensures var s := S.Update(w.rows, w.media, user, entitlement, id, input, now, plan);
            S.Update(Own(w.rows, user), w.media, user, entitlement, id, input, now, plan)
            == s.(rows := Own(s.rows, user))
  {
    PrepareUpdateLocal(w, user, entitlement, id, input, now, plan);
    S.PreparedUpdate(w.rows, w.media, user, entitlement, id, input, now, plan);
    var p := S.PrepareUpdate(w.rows, w.media, user, entitlement, id, input, now, plan);
    if p.result.Ok? {
      OwnUpdate(w.rows, p.result.value);
    }
  }

  lemma OwnHardDelete(t: seq<Apiary>, user: Id, id: Id)
    ensures var w, o := HardDelete(t, user, id), HardDelete(Own(t, user), user, id);
            o.error == w.error && o.table == Own(w.table, user)
  {
    var p, q := OtherThan(user, id), OwnedBy(user);
    var both := (a: Apiary) => p(a) && q(a);
    FilterFilter(t, p, q, both);
    FilterFilter(t, q, p, both);
    WholeIff(t, p);
    WholeIff(Own(t, user), p);
  }

  lemma WholeIff(t: seq<Apiary>, p: Apiary -> bool)
    ensures |Filter(t, p)| == |t| <==> forall a :: a in t ==> p(a)
  {
    if |Filter(t, p)| == |t| {
      FilterWhole(t, p);
    }
    if forall a :: a in t ==> p(a) {
      FilterAll(t, p);
    }
  }

  ghost predicate StepsOf(user: Id, steps: seq<Step>) {
    forall k :: 0 <= k < |steps| && steps[k].DropRow? ==> steps[k].user == user
  }

  lemma {:induction false} RunLocal(w: World, user: Id, steps: seq<Step>, plan: seq<Fault>)
    requires StepsOf(user, steps)
    ensures var r, o := Run(w, steps, plan), Run(Alone(w, user), steps, plan);
            o.world == Alone(r.world, user) && o.error == r.error && o.plan == r.plan
    decreases |steps|
  {
    if steps != [] {
      if steps[0].DropRow? {
        OwnHardDelete(w.rows, user, steps[0].apiary);
      }
      var p, o := Perform(w, steps[0], Next(plan)), Perform(Alone(w, user), steps[0], Next(plan));
      assert o.0 == Alone(p.0, user) && o.1 == p.1;
      RunLocal(p.0, user, steps[1..], Rest(plan));
    }
  }

  lemma {:induction false} BatchLocal(w: World, user: Id, reminders: bool, list: seq<Apiary>, plan: seq<Fault>)
    ensures var b := RunBatch(w, user, reminders, list, plan).ran;
            var o := RunBatch(Alone(w, user), user, reminders, list, plan).ran;
            o.world == Alone(b.world, user) && o.error == b.error && o.plan == b.plan
    decreases |list|
  {
    if list != [] {
      RunLocal(w, user, Script(user, reminders, list[0]), plan);
      var r := Run(w, Script(user, reminders, list[0]), plan);
      if r.error.None? {
        BatchLocal(r.world, user, reminders, list[1..], r.plan);
      }
    }
  }

  lemma DeleteOneLocal(w: World, reminders: bool, user: Id, id: Id, plan: seq<Fault>)
    ensures var r, o := DeleteOne(w, user, reminders, id, plan), DeleteOne(Alone(w, user), user, reminders, id, plan);
            o.world == Alone(r.world, user) && o.error == r.error
  {
    OwnGet(w.rows, user, id);
    var found := GetByID(w.rows, user, id);
    if found.Ok? {
      RunLocal(w, user, Script(user, reminders, found.value), Rest(plan));
    }
  }

  lemma DeleteAllLocal(w: World, reminders: bool, user: Id, plan: seq<Fault>)
    ensures var b, o := DeleteAll(w, user, reminders, plan).ran, DeleteAll(Alone(w, user), user, reminders, plan).ran;
            o.world == Alone(b.world, user) && o.error == b.error
  {
    OwnReads(w.rows, user);
    BatchLocal(w, user, reminders, ListAll(w.rows, user), Rest(plan));
  }

  lemma SweepLocal(t: seq<Apiary>, user: Id)
    ensures DeleteAllByUserHard(Own(t, user), user) == [] == Own(DeleteAllByUserHard(t, user), user)
  {
    NoneMatch(Own(t, user), NotOwnedBy(user));
    NoneMatch(DeleteAllByUserHard(t, user), OwnedBy(user));
  }

  /** Isolation: with ids not generated twice, a user's request gets the same reply, and leaves
      the user's rows and the other stores the same, as if nobody else had any apiary. */
  lemma RequestsAreLocal(w: World, reminders: bool, r: Request, plan: seq<Fault>)
    requires DistinctIds(w.rows)
    requires r.Create? && HasId(w.rows, r.id) ==> HasId(Own(w.rows, r.user), r.id)
    ensures var (x, reply) := Serve(w, reminders, r, plan);
            Serve(Alone(w, r.user), reminders, r, plan) == (Alone(x, r.user), reply)
  {
    match r
    case Create(user, entitlement, input, id, now) => CreateLocal(w, user, entitlement, input, id, now, plan);
    case Update(user, entitlement, id, input, now) => UpdateLocal(w, user, entitlement, id, input, now, plan);
    case Delete(user, id) => DeleteOneLocal(w, reminders, user, id, plan);
    case DeleteAllByUser(user) => DeleteAllLocal(w, reminders, user, plan);
    case DeleteLocalByUser(user) => SweepLocal(w.rows, user);
  }
}
