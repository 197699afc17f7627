/** What each use case of the service answers and leaves in the table, one call after the
    other, with a fault schedule for the calls it makes. */
module ServiceSpec {
  import opened Seqs
  import opened Domain
  import opened Ordering
  import opened Table
  import opened Writability
  import opened Cascade
  import opened Like
  import opened ListQuery
  import opened Images

  datatype WithAccess = WithAccess(apiary: Apiary, writable: bool)

  datatype CreateInput = CreateInput(name: string, location: string, description: string,
                                     lat: Option<real>, lon: Option<real>, images: seq<Id>)

  /** `images` is None when the request leaves attached media alone. */
  datatype UpdateInput = UpdateInput(name: string, location: string, description: string,
                                     lat: Option<real>, lon: Option<real>, images: Option<seq<Id>>)

  /** An answer, and the part of the fault schedule not used up. */
  datatype Answer<+T> = Answer(result: Result<T>, plan: seq<Fault>)

  /** An answer of a use case that may write, with the table it leaves. */
  datatype Served = Served(result: Result<WithAccess>, rows: seq<Apiary>, plan: seq<Fault>)

  /** Whether the caller is on the Free plan. Any other entitlement counts as unrestricted. */
  function ResolveFree(entitlement: string, plan: seq<Fault>): Answer<bool> {
    Answer(if Next(plan).Works? then Ok(entitlement == ENTITLEMENT_FREE) else Err(Upstream), Rest(plan))
  }

  function FreeWritable(t: seq<Apiary>, user: Id, plan: seq<Fault>): Answer<seq<Id>> {
    Answer(if Next(plan).Works? then Ok(WritableIDs(t, user, FREE_MAX_APIARIES)) else Err(Upstream), Rest(plan))
  }

  /** resolveWritable. */
  function ResolveWritable(t: seq<Apiary>, user: Id, entitlement: string, id: Id, plan: seq<Fault>): Answer<bool> {
    var free := ResolveFree(entitlement, plan);
    if free.result.Err? then free
    else if !free.result.value then Answer(Ok(true), free.plan)
    else
      var ids := FreeWritable(t, user, free.plan);
      if ids.result.Err? then Answer(Err(ids.result.error), ids.plan)
      else Answer(Ok(id in ids.result.value), ids.plan)
  }

  function Get(t: seq<Apiary>, user: Id, entitlement: string, id: Id, plan: seq<Fault>): Answer<WithAccess> {
    if Next(plan).Breaks? then Answer(Err(Upstream), Rest(plan))
    else
      var found := GetByID(t, user, id);
      if found.Err? then Answer(Err(found.error), Rest(plan))
      else
        var w := ResolveWritable(t, user, entitlement, id, Rest(plan));
        if w.result.Err? then Answer(Err(w.result.error), w.plan)
        else Answer(Ok(WithAccess(found.value, w.result.value)), w.plan)
  }

  /** The id of the one writable apiary under Free, and whether the caller is unrestricted. */
  function WritableApiaryID(t: seq<Apiary>, user: Id, entitlement: string, plan: seq<Fault>)
    : Answer<(Option<Id>, bool)>
  {
    var free := ResolveFree(entitlement, plan);
    if free.result.Err? then Answer(Err(free.result.error), free.plan)
    else if !free.result.value then Answer(Ok((None, true)), free.plan)
    else
      var ids := FreeWritable(t, user, free.plan);
      if ids.result.Err? then Answer(Err(ids.result.error), ids.plan)
      else if ids.result.value == [] then Answer(Ok((None, false)), ids.plan)
      else Answer(Ok((Some(ids.result.value[0]), false)), ids.plan)
  }

  function Flagged(page: seq<Apiary>, free: bool, writable: seq<Id>): seq<WithAccess> {
    seq(|page|, i requires 0 <= i < |page| => WithAccess(page[i], !free || page[i].id in writable))
  }

  /** The flags of a page, resolved once for the caller. */
  function FlagPage(t: seq<Apiary>, user: Id, entitlement: string, page: seq<Apiary>, plan: seq<Fault>)
    : Answer<seq<WithAccess>>
  {
    var free := ResolveFree(entitlement, plan);
    if free.result.Err? then Answer(Err(free.result.error), free.plan)
    else if !free.result.value then Answer(Ok(Flagged(page, false, [])), free.plan)
    else
      var ids := FreeWritable(t, user, free.plan);
      if ids.result.Err? then Answer(Err(ids.result.error), ids.plan)
      else Answer(Ok(Flagged(page, true, ids.result.value)), ids.plan)
  }

  /** List; `hiveIds` is what hive-service answers when the hive filter is on. */
  function List(fold: char -> char, t: seq<Apiary>, user: Id, entitlement: string, page: nat, limit: nat,
                search: Option<string>, sortOrder: Option<string>, withoutHives: bool, hiveIds: seq<Id>,
                plan: seq<Fault>): Answer<(seq<WithAccess>, nat)>
    requires page >= 1
  {
    if withoutHives && Next(plan).Breaks? then Answer(Err(Upstream), Rest(plan))
    else
      var plan1 := if withoutHives then Rest(plan) else plan;
      var f := Filters(search, withoutHives, if withoutHives then Some(hiveIds) else None);
      if Next(plan1).Breaks? then Answer(Err(Upstream), Rest(plan1))
      else
        var rows := Slice(Matching(fold, t, user, f, CreatedAtOrder(sortOrder)), Offset(page, limit), limit);
        var flagged := FlagPage(t, user, entitlement, rows, Rest(plan1));
        if flagged.result.Err? then Answer(Err(flagged.result.error), flagged.plan)
        else Answer(Ok((flagged.result.value, |Filter(t, Wanted(fold, user, f))|)), flagged.plan)
  }

  /** Every id is a file of the user that media-service still has. */
  predicate AllOwned(files: set<Item>, user: Id, ids: seq<Id>) {
    forall id :: id in ids ==> Item(id, user) in files
  }

  /** The images of a request: deduplicated, within the limit, and verified when there are any. */
  function VetImages(files: set<Item>, user: Id, images: seq<Id>, plan: seq<Fault>): Answer<seq<Id>> {
    var dedup := Dedupe(images);
    if |dedup| > MAX_MEDIA_ATTACHMENTS then Answer(Err(MediaLimitReached), plan)
    else if dedup == [] then Answer(Ok(dedup), plan)
    else if Next(plan).Breaks? then Answer(Err(Upstream), Rest(plan))
    else if !AllOwned(files, user, dedup) then Answer(Err(ImageNotFound), Rest(plan))
    else Answer(Ok(dedup), Rest(plan))
  }

  /** The entitlement and, under Free, the early count: the limit the create is to keep. */
  function CreateLimit(t: seq<Apiary>, user: Id, entitlement: string, plan: seq<Fault>): Answer<nat> {
    var free := ResolveFree(entitlement, plan);
    if free.result.Err? then Answer(Err(free.result.error), free.plan)
    else if !free.result.value then Answer(Ok(0), free.plan)
    else if Next(free.plan).Breaks? then Answer(Err(Upstream), Rest(free.plan))
    else if Count(t, user) >= FREE_MAX_APIARIES then Answer(Err(LimitReached), Rest(free.plan))
    else Answer(Ok(FREE_MAX_APIARIES), Rest(free.plan))
  }

  function NewRow(user: Id, input: CreateInput, images: seq<Id>, id: Id, now: int): Apiary {
    Apiary(id, user, input.name, input.location, input.description, input.lat, input.lon, images, now, now, None)
  }

  function AfterWriting(w: Written, a: Apiary, plan: seq<Fault>): Served {
    Served(if w.error.Some? then Err(w.error.value) else Ok(WithAccess(a, true)), w.table, plan)
  }

  /** Everything Create does before it writes: the row to insert and the limit to keep.
      `id` and `now` are the generated id and the clock. */
  function PrepareCreate(t: seq<Apiary>, files: set<Item>, user: Id, entitlement: string, input: CreateInput,
                         id: Id, now: int, plan: seq<Fault>): Answer<(Apiary, nat)>
  {
    var limit := CreateLimit(t, user, entitlement, plan);
    if limit.result.Err? then Answer(Err(limit.result.error), limit.plan)
    else
      var images := VetImages(files, user, input.images, limit.plan);
      if images.result.Err? then Answer(Err(images.result.error), images.plan)
      else Answer(Ok((NewRow(user, input, images.result.value, id, now), limit.result.value)), images.plan)
  }

  function Create(t: seq<Apiary>, files: set<Item>, user: Id, entitlement: string, input: CreateInput,
                  id: Id, now: int, plan: seq<Fault>): Served
  {
    var p := PrepareCreate(t, files, user, entitlement, input, id, now, plan);
    if p.result.Err? then Served(Err(p.result.error), t, p.plan)
    else
      var a := p.result.value.0;
      AfterWriting(Delivered(t, CreateWithLimit(t, a, p.result.value.1), a.id, Next(p.plan)), a, Rest(p.plan))
  }

  function EditedRow(a: Apiary, input: UpdateInput, images: seq<Id>, now: int): Apiary {
    a.(name := input.name, location := input.location, description := input.description,
       lat := input.lat, lon := input.lon, images := images, updatedAt := now)
  }

  /** The write access an update needs: unrestricted, or writable under Free. */
  function WriteAccess(t: seq<Apiary>, user: Id, entitlement: string, id: Id, plan: seq<Fault>): Answer<bool> {
    var w := ResolveWritable(t, user, entitlement, id, plan);
    if w.result == Ok(false) then Answer(Err(ReadOnly), w.plan) else w
  }

  /** Everything Update does before it writes: the row as it is to be. */
  function PrepareUpdate(t: seq<Apiary>, files: set<Item>, user: Id, entitlement: string, id: Id,
                         input: UpdateInput, now: int, plan: seq<Fault>): Answer<Apiary>
  {
    if Next(plan).Breaks? then Answer(Err(Upstream), Rest(plan))
    else
      var found := GetByID(t, user, id);
      if found.Err? then Answer(Err(found.error), Rest(plan))
      else
        var access := WriteAccess(t, user, entitlement, id, Rest(plan));
        if access.result.Err? then Answer(Err(access.result.error), access.plan)
        else
          var images := if input.images.None? then Answer(Ok(found.value.images), access.plan)
                        else VetImages(files, user, input.images.value, access.plan);
          if images.result.Err? then Answer(Err(images.result.error), images.plan)
          else Answer(Ok(EditedRow(found.value, input, images.result.value, now)), images.plan)
  }

  function Update(t: seq<Apiary>, files: set<Item>, user: Id, entitlement: string, id: Id, input: UpdateInput,
                  now: int, plan: seq<Fault>): Served
  {
    var p := PrepareUpdate(t, files, user, entitlement, id, input, now, plan);
    if p.result.Err? then Served(Err(p.result.error), t, p.plan)
    else
      var a := p.result.value;
      AfterWriting(Delivered(t, Table.Update(t, a), a.id, Next(p.plan)), a, Rest(p.plan))
  }

  // ---- the calls a use case makes ----

  /** The call that only a Free caller needs: a count, or the writable ids. */
  function FreeCalls(entitlement: string): nat {
    if entitlement == ENTITLEMENT_FREE then 1 else 0
  }

  /** A lookup first, then the calls that resolve write access. */
  lemma AccessCalls(t: seq<Apiary>, user: Id, entitlement: string, id: Id, plan: seq<Fault>)
    ensures var n := 2 + FreeCalls(entitlement);
            && (FirstWork(plan, n) <==> Next(plan).Works? && FirstWork(Rest(plan), n - 1))
            && Skip(plan, n) == Skip(Rest(plan), n - 1)
            && (FirstWork(plan, 1) <==> Next(plan).Works?)
  {
    FirstWorkCons(plan, 1 + FreeCalls(entitlement));
    SkipCons(plan, 1 + FreeCalls(entitlement));
    FewCalls(plan);
  }

  // ---- writability: everyone agrees ----

  /** A row is open to its owner: unrestricted, or fewer older live rows than the Free plan allows. */
  ghost predicate Open(t: seq<Apiary>, user: Id, entitlement: string, a: Apiary) {
    entitlement == ENTITLEMENT_FREE ==> Rank(t, user, a) < FREE_MAX_APIARIES
  }

  lemma FreeWritableIffRank(t: seq<Apiary>, user: Id, a: Apiary)
    requires DistinctIds(t) && a in t && LiveOf(user)(a)
    ensures a.id in WritableIDs(t, user, FREE_MAX_APIARIES) <==> Rank(t, user, a) < FREE_MAX_APIARIES
  {
    WritableIffRank(t, user, a.id, FREE_MAX_APIARIES);
    forall b | b in t && LiveRow(user, a.id)(b) ensures b == a {
      SameId(t, a, b);
    }
  }

  lemma ResolvesOpen(t: seq<Apiary>, user: Id, entitlement: string, a: Apiary, plan: seq<Fault>)
    requires DistinctIds(t) && a in t && LiveOf(user)(a)
    ensures var r := ResolveWritable(t, user, entitlement, a.id, plan).result;
            && (r == Err(Upstream) || r == Ok(Open(t, user, entitlement, a)))
            && (FaultFree(plan) ==> r.Ok?)
  {
    FreeWritableIffRank(t, user, a);
  }

  /** Whatever breaks, Get reports a live row with its rank's verdict or fails upstream; and it
      does not fail undisturbed. */
  lemma GetAgrees(t: seq<Apiary>, user: Id, entitlement: string, a: Apiary, plan: seq<Fault>)
    requires DistinctIds(t) && a in t && LiveOf(user)(a)
    ensures var r := Get(t, user, entitlement, a.id, plan).result;
            && (r == Err(Upstream) || r == Ok(WithAccess(a, Open(t, user, entitlement, a))))
            && (FaultFree(plan) ==> r.Ok?)
  {
    GetByIDProps(t, user, a.id);
    ResolvesOpen(t, user, entitlement, a, Rest(plan));
  }

  lemma FlagPageAgrees(t: seq<Apiary>, user: Id, entitlement: string, a: Apiary, page: seq<Apiary>, plan: seq<Fault>)
    requires DistinctIds(t) && a in t && LiveOf(user)(a)
    ensures var r := FlagPage(t, user, entitlement, page, plan).result;
            && (r.Ok? ==> forall w :: w in r.value && w.apiary == a ==> w.writable == Open(t, user, entitlement, a))
            && (r.Err? ==> r.error == Upstream)
            && (FaultFree(plan) ==> r.Ok?)
  {
    FreeWritableIffRank(t, user, a);
  }

  /** So does every page of every listing, whatever the search, order or filter. */
  lemma ListAgrees(fold: char -> char, t: seq<Apiary>, user: Id, entitlement: string, a: Apiary,
                   page: nat, limit: nat, search: Option<string>, sortOrder: Option<string>,
                   withoutHives: bool, hiveIds: seq<Id>, plan: seq<Fault>)
    requires DistinctIds(t) && a in t && LiveOf(user)(a) && page >= 1
    ensures var r := List(fold, t, user, entitlement, page, limit, search, sortOrder, withoutHives, hiveIds, plan).result;
            && (r.Ok? ==> forall w :: w in r.value.0 && w.apiary == a ==> w.writable == Open(t, user, entitlement, a))
            && (r.Err? ==> r.error == Upstream)
            && (FaultFree(plan) ==> r.Ok?)
  {
    var f := Filters(search, withoutHives, if withoutHives then Some(hiveIds) else None);
    var rows := Slice(Matching(fold, t, user, f, CreatedAtOrder(sortOrder)), Offset(page, limit), limit);
    FlagPageAgrees(t, user, entitlement, a, rows, Rest(if withoutHives then Rest(plan) else plan));
  }

  /** Update is refused as read-only only when the verdict is against it, and then always,
      unless it fails upstream first. */
  lemma UpdateAgrees(t: seq<Apiary>, files: set<Item>, user: Id, entitlement: string, a: Apiary,
                     input: UpdateInput, now: int, plan: seq<Fault>)
    requires DistinctIds(t) && a in t && LiveOf(user)(a)
    ensures var r := Update(t, files, user, entitlement, a.id, input, now, plan).result;
            && (r == Err(ReadOnly) ==> !Open(t, user, entitlement, a))
            && (!Open(t, user, entitlement, a) ==> r == Err(ReadOnly) || (r == Err(Upstream) && !FaultFree(plan)))
  {
    GetByIDProps(t, user, a.id);
    ResolvesOpen(t, user, entitlement, a, Rest(plan));
    if input.images.Some? {
      VetImagesErrors(files, user, input.images.value, WriteAccess(t, user, entitlement, a.id, Rest(plan)).plan);
    }
  }

  lemma VetImagesErrors(files: set<Item>, user: Id, images: seq<Id>, plan: seq<Fault>)
    ensures VetImages(files, user, images, plan).result != Err(ReadOnly)
  {
  }

  /** WritableApiaryID names the row, or calls the caller unrestricted, exactly when it is open,
      unless it fails upstream. */
  lemma WritableApiaryIDAgrees(t: seq<Apiary>, user: Id, entitlement: string, a: Apiary, plan: seq<Fault>)
    requires DistinctIds(t) && a in t && LiveOf(user)(a)
    ensures var r := WritableApiaryID(t, user, entitlement, plan).result;
            && (r.Ok? ==> (r.value.1 || r.value.0 == Some(a.id) <==> Open(t, user, entitlement, a)))
            && (r.Err? ==> r.error == Upstream)
            && (FaultFree(plan) ==> r.Ok?)
  {
    FreeWritableIffRank(t, user, a);
    var ids := WritableIDs(t, user, FREE_MAX_APIARIES);
    assert |ids| <= 1;
    assert a.id in ids <==> ids != [] && ids[0] == a.id;
  }

  /** The answer of WritableApiaryID: a caller is unrestricted exactly off the Free plan, a Free
      caller is told an id exactly when it has a live row, and the id is that of its oldest. */
  ghost predicate NamesWritable(t: seq<Apiary>, user: Id, entitlement: string, answer: (Option<Id>, bool)) {
    && (answer.1 <==> entitlement != ENTITLEMENT_FREE)
    && (answer.0.None? <==> answer.1 || Count(t, user) == 0)
    && (answer.0.Some? ==> exists a :: a in t && LiveRow(user, answer.0.value)(a) && Rank(t, user, a) == 0)
  }

  lemma WritableApiaryIDExact(t: seq<Apiary>, user: Id, entitlement: string, plan: seq<Fault>)
    requires DistinctIds(t)
    ensures var r := WritableApiaryID(t, user, entitlement, plan).result;
            && (r.Ok? ==> NamesWritable(t, user, entitlement, r.value))
            && (r.Err? ==> r.error == Upstream)
            && (r.Ok? <==> FirstWork(plan, 1 + FreeCalls(entitlement)))
  {
    FewCalls(plan);
    var ids := WritableIDs(t, user, FREE_MAX_APIARIES);
    assert |ids| == Min(FREE_MAX_APIARIES, Count(t, user));
    if ids != [] {
      assert ids[0] in ids;
      WritableIffRank(t, user, ids[0], FREE_MAX_APIARIES);
    }
  }

  /** The rows a listing is asked for. */
  ghost predicate Asked(fold: char -> char, user: Id, search: Option<string>, withoutHives: bool, hiveIds: seq<Id>,
                        a: Apiary)
  {
    && a.userId == user && a.deletedAt.None?
    && (withoutHives ==> a.id !in hiveIds)
    && (search.Some? && Utf8Length(search.value) >= MIN_SEARCH_LENGTH ==>
          ILike(fold, a.name, "%" + search.value + "%") || ILike(fold, a.location, "%" + search.value + "%"))
  }

  /** All the asked rows of the table, each once, newest first when "desc" is asked for and
      oldest first otherwise. */
  ghost predicate Ordered(fold: char -> char, t: seq<Apiary>, user: Id, search: Option<string>,
                          sortOrder: Option<string>, withoutHives: bool, hiveIds: seq<Id>, all: seq<Apiary>)
  {
    && DistinctIds(all)
    && (forall a :: a in all <==> a in t && Asked(fold, user, search, withoutHives, hiveIds, a))
    && Sorted(if sortOrder == Some("desc") then Desc else Asc, all)
  }

  /** `shown` is what `all` has at the positions from `offset` on, at most `limit` of them. */
  ghost predicate Shows(all: seq<Apiary>, offset: int, limit: nat, shown: seq<WithAccess>) {
    && |shown| == Min(limit, Max(0, |all| - offset))
    && forall k :: 0 <= k < |shown| ==> 0 <= offset + k < |all| && shown[k].apiary == all[offset + k]
  }

  ghost predicate Lists(fold: char -> char, t: seq<Apiary>, user: Id, page: nat, limit: nat, search: Option<string>,
                        sortOrder: Option<string>, withoutHives: bool, hiveIds: seq<Id>,
                        answer: (seq<WithAccess>, nat))
  {
    exists all :: Ordered(fold, t, user, search, sortOrder, withoutHives, hiveIds, all)
                  && answer.1 == |all| && Shows(all, (page - 1) * limit, limit, answer.0)
  }

  lemma WantedIsAsked(fold: char -> char, user: Id, search: Option<string>, withoutHives: bool, hiveIds: seq<Id>,
                      a: Apiary)
    ensures var f := Filters(search, withoutHives, if withoutHives then Some(hiveIds) else None);
            Wanted(fold, user, f)(a) <==> Asked(fold, user, search, withoutHives, hiveIds, a)
  {
    var f := Filters(search, withoutHives, if withoutHives then Some(hiveIds) else None);
    assert LiveOf(user)(a) <==> a.userId == user && a.deletedAt.None?;
    if f.Searches() {
      var pattern := "%" + search.value + "%";
      assert Containing(search.value) == pattern;
      assert Wanted(fold, user, f)(a) <==>
        LiveOf(user)(a) && (withoutHives ==> a.id !in hiveIds)
        && (ILike(fold, a.name, pattern) || ILike(fold, a.location, pattern));
    }
  }

  lemma MatchingOrdered(fold: char -> char, t: seq<Apiary>, user: Id, search: Option<string>,
                        sortOrder: Option<string>, withoutHives: bool, hiveIds: seq<Id>)
    requires DistinctIds(t)
    ensures var f := Filters(search, withoutHives, if withoutHives then Some(hiveIds) else None);
            Ordered(fold, t, user, search, sortOrder, withoutHives, hiveIds,
                    Matching(fold, t, user, f, CreatedAtOrder(sortOrder)))
  {
    var f := Filters(search, withoutHives, if withoutHives then Some(hiveIds) else None);
    var d, m := CreatedAtOrder(sortOrder), Filter(t, Wanted(fold, user, f));
    SortProps(d, m);
    DistinctIdsFilter(t, Wanted(fold, user, f));
    DistinctIdsSort(d, m);
    forall a ensures Wanted(fold, user, f)(a) <==> Asked(fold, user, search, withoutHives, hiveIds, a) {
      WantedIsAsked(fold, user, search, withoutHives, hiveIds, a);
    }
  }

  lemma SliceShows(all: seq<Apiary>, offset: nat, limit: nat, free: bool, ids: seq<Id>)
    ensures Shows(all, offset, limit, Flagged(Slice(all, offset, limit), free, ids))
  {
  }

  lemma FlagPageShows(t: seq<Apiary>, user: Id, entitlement: string, all: seq<Apiary>, offset: nat, limit: nat,
                      plan: seq<Fault>)
    ensures var r := FlagPage(t, user, entitlement, Slice(all, offset, limit), plan).result;
            && (r.Ok? ==> Shows(all, offset, limit, r.value))
            && (r.Err? ==> r.error == Upstream)
            && (r.Ok? <==> FirstWork(plan, 1 + FreeCalls(entitlement)))
  {
    FewCalls(plan);
    SliceShows(all, offset, limit, false, []);
    SliceShows(all, offset, limit, true, WritableIDs(t, user, FREE_MAX_APIARIES));
  }

  /** A listing answers the asked page of the asked rows in the asked order, and how many there
      are in all, exactly when the calls it needs work; otherwise it fails upstream. */
  lemma ListExact(fold: char -> char, t: seq<Apiary>, user: Id, entitlement: string, page: nat, limit: nat,
                  search: Option<string>, sortOrder: Option<string>, withoutHives: bool, hiveIds: seq<Id>,
                  plan: seq<Fault>)
    requires DistinctIds(t) && page >= 1
    ensures var r := List(fold, t, user, entitlement, page, limit, search, sortOrder, withoutHives, hiveIds, plan).result;
            && (r.Ok? ==> Lists(fold, t, user, page, limit, search, sortOrder, withoutHives, hiveIds, r.value))
            && (r.Err? ==> r.error == Upstream)
            && (r.Ok? <==> FirstWork(plan, (if withoutHives then 1 else 0) + 2 + FreeCalls(entitlement)))
  {
    FirstWorkCons(plan, 2 + FreeCalls(entitlement));
    FirstWorkCons(plan, 1 + FreeCalls(entitlement));
    FirstWorkCons(Rest(plan), 1 + FreeCalls(entitlement));
    var f := Filters(search, withoutHives, if withoutHives then Some(hiveIds) else None);
    var all := Matching(fold, t, user, f, CreatedAtOrder(sortOrder));
    MatchingOrdered(fold, t, user, search, sortOrder, withoutHives, hiveIds);
    OffsetIs(page, limit);
    var plan1 := if withoutHives then Rest(plan) else plan;
    FlagPageShows(t, user, entitlement, all, Offset(page, limit), limit, Rest(plan1));
  }

  /** What Get answers, whatever breaks: NotFound exactly when its lookup works and the caller
      has no live row with the id, and a row exactly when there is one and every call works. */
  lemma GetAnswer(t: seq<Apiary>, user: Id, entitlement: string, id: Id, plan: seq<Fault>)
    requires DistinctIds(t)
    ensures var r := Get(t, user, entitlement, id, plan).result;
            var found := exists a :: a in t && LiveRow(user, id)(a);
            && (r == Err(NotFound) <==> !found && FirstWork(plan, 1))
            && (r.Ok? <==> found && FirstWork(plan, 2 + FreeCalls(entitlement)))
            && (r.Ok? ==> r.value.apiary in t && LiveRow(user, id)(r.value.apiary))
            && (r.Err? ==> r.error == NotFound || r.error == Upstream)
  {
    GetByIDProps(t, user, id);
    AccessCalls(t, user, entitlement, id, plan);
    FewCalls(Rest(plan));
  }

  // ---- what is written ----

  /** The rows the service writes are the caller's, live, and carry vetted images. */
  ghost predicate GoodImages(a: Apiary) {
    NoDup(a.images) && |a.images| <= MAX_MEDIA_ATTACHMENTS
  }

  lemma PreparedCreate(t: seq<Apiary>, files: set<Item>, user: Id, entitlement: string, input: CreateInput,
                       id: Id, now: int, plan: seq<Fault>)
    ensures var p := PrepareCreate(t, files, user, entitlement, input, id, now, plan);
            p.result.Ok? ==>
              var a := p.result.value.0;
              a.id == id && a.userId == user && a.Live() && GoodImages(a)
  {
    VetImagesIff(files, user, input.images, CreateLimit(t, user, entitlement, plan).plan);
  }

  lemma PreparedUpdate(t: seq<Apiary>, files: set<Item>, user: Id, entitlement: string, id: Id,
                       input: UpdateInput, now: int, plan: seq<Fault>)
    requires DistinctIds(t)
    ensures var p := PrepareUpdate(t, files, user, entitlement, id, input, now, plan);
            p.result.Ok? ==>
              && p.result.value.id == id && p.result.value.userId == user
              && ((forall a :: a in t ==> GoodImages(a)) ==> GoodImages(p.result.value))
  {
    GetByIDProps(t, user, id);
    if input.images.Some? {
      VetImagesIff(files, user, input.images.value, WriteAccess(t, user, entitlement, id, Rest(plan)).plan);
    }
  }

  // ---- what the answers promise ----

  /** The ownership check is only called for with images. */
  function ImageCalls(images: seq<Id>): nat {
    if images != [] then 1 else 0
  }

  lemma CreateLimitCalls(t: seq<Apiary>, user: Id, entitlement: string, plan: seq<Fault>)
    ensures var l, n := CreateLimit(t, user, entitlement, plan), 1 + FreeCalls(entitlement);
            var full := entitlement == ENTITLEMENT_FREE && Count(t, user) > 0;
            && (l.result.Ok? <==> !full && FirstWork(plan, n))
            && (l.result == Err(LimitReached) <==> full && FirstWork(plan, n))
            && (l.result.Err? ==> l.result.error == LimitReached || l.result.error == Upstream)
            && (l.result.Ok? ==> l.plan == Skip(plan, n))
  {
    FewCalls(plan);
  }

  lemma VetImagesCalls(files: set<Item>, user: Id, images: seq<Id>, plan: seq<Fault>)
    ensures var v, m := VetImages(files, user, images, plan), ImageCalls(images);
            var many, owned := |Elems(images)| > MAX_MEDIA_ATTACHMENTS, AllOwned(files, user, images);
            && (v.result.Ok? <==> !many && owned && FirstWork(plan, m))
            && (v.result == Err(MediaLimitReached) <==> many)
            && (v.result == Err(ImageNotFound) <==> !many && !owned && FirstWork(plan, m))
            && (v.result.Err? ==> v.result.error in {MediaLimitReached, ImageNotFound, Upstream})
            && (v.result.Ok? ==> v.plan == Skip(plan, m))
  {
    DedupedFacts(files, user, images);
    FewCalls(plan);
  }

  lemma PrepareCreateCalls(t: seq<Apiary>, files: set<Item>, user: Id, entitlement: string, input: CreateInput,
                           id: Id, now: int, plan: seq<Fault>)
    ensures var p := PrepareCreate(t, files, user, entitlement, input, id, now, plan);
            var n, m := 1 + FreeCalls(entitlement), ImageCalls(input.images);
            var full := entitlement == ENTITLEMENT_FREE && Count(t, user) > 0;
            var many, owned := |Elems(input.images)| > MAX_MEDIA_ATTACHMENTS, AllOwned(files, user, input.images);
            && (p.result == Err(LimitReached) <==> full && FirstWork(plan, n))
            && (p.result == Err(MediaLimitReached) <==> !full && many && FirstWork(plan, n))
            && (p.result == Err(ImageNotFound) <==> !full && !many && !owned && FirstWork(plan, n + m))
            && (p.result.Ok? <==> !full && !many && owned && FirstWork(plan, n + m))
            && (p.result.Ok? ==> p.plan == Skip(plan, n + m))
            && (p.result.Err? ==> p.result.error in {LimitReached, MediaLimitReached, ImageNotFound, Upstream})
  {
    var n, m := 1 + FreeCalls(entitlement), ImageCalls(input.images);
    var limit := CreateLimit(t, user, entitlement, plan);
    CreateLimitCalls(t, user, entitlement, plan);
    VetImagesCalls(files, user, input.images, limit.plan);
    FirstWorkSplit(plan, n, m);
    SkipSplit(plan, n, m);
  }

  /** What a Create answers, whatever breaks: success exactly when a Free caller owns nothing
      yet, at most five distinct files are attached, all of them the caller's, id and name are
      free, and the calls this takes work. */
  lemma CreateSucceedsIff(t: seq<Apiary>, files: set<Item>, user: Id, entitlement: string, input: CreateInput,
                          id: Id, now: int, plan: seq<Fault>)
    ensures Create(t, files, user, entitlement, input, id, now, plan).result.Ok?
       <==> && (entitlement == "free" ==> Count(t, user) == 0)
            && |Elems(input.images)| <= 5
            && AllOwned(files, user, input.images)
            && !HasId(t, id)
            && !NameHeld(t, user, input.name, id)
            && FirstWork(plan, 2 + FreeCalls(entitlement) + ImageCalls(input.images))
  {
    var n := 1 + FreeCalls(entitlement) + ImageCalls(input.images);
    PrepareCreateCalls(t, files, user, entitlement, input, id, now, plan);
    FirstWorkSplit(plan, n, 1);
    FewCalls(Skip(plan, n));
  }

  /** Which refusal a Create gives, whatever breaks: the limit comes before the images, and both
      before the name; each is given when the calls up to it work, and anything else is an
      upstream failure. */
  lemma CreateRefusal(t: seq<Apiary>, files: set<Item>, user: Id, entitlement: string, input: CreateInput,
                      id: Id, now: int, plan: seq<Fault>)
    ensures var r := Create(t, files, user, entitlement, input, id, now, plan).result;
            var n, m := 1 + FreeCalls(entitlement), ImageCalls(input.images);
            var full := entitlement == ENTITLEMENT_FREE && Count(t, user) > 0;
            var many, owned := |Elems(input.images)| > MAX_MEDIA_ATTACHMENTS, AllOwned(files, user, input.images);
            && (r == Err(LimitReached) <==> full && FirstWork(plan, n))
            && (r == Err(MediaLimitReached) <==> !full && many && FirstWork(plan, n))
            && (r == Err(ImageNotFound) <==> !full && !many && !owned && FirstWork(plan, n + m))
            && (r == Err(NameTaken) <==> !full && !many && owned && !HasId(t, id) && NameHeld(t, user, input.name, id)
                                         && FirstWork(plan, n + m + 1))
            && (r.Err? ==> r.error in {LimitReached, MediaLimitReached, ImageNotFound, NameTaken, Upstream})
  {
    var n := 1 + FreeCalls(entitlement) + ImageCalls(input.images);
    PrepareCreateCalls(t, files, user, entitlement, input, id, now, plan);
    FirstWorkSplit(plan, n, 1);
    FewCalls(Skip(plan, n));
  }

  lemma VetImagesIff(files: set<Item>, user: Id, images: seq<Id>, plan: seq<Fault>)
    ensures var v := VetImages(files, user, images, plan);
            && (v.result.Ok? ==> v.result.value == Dedupe(images) && NoDup(v.result.value)
                                 && |v.result.value| <= MAX_MEDIA_ATTACHMENTS)
            && (FaultFree(plan) ==>
                  FaultFree(v.plan) &&
                  (v.result.Ok? <==> |Elems(images)| <= MAX_MEDIA_ATTACHMENTS && AllOwned(files, user, images)))
  {
    DedupedFacts(files, user, images);
  }

  lemma DedupedFacts(files: set<Item>, user: Id, images: seq<Id>)
    ensures NoDup(Dedupe(images)) && |Dedupe(images)| == |Elems(images)|
    ensures AllOwned(files, user, Dedupe(images)) <==> AllOwned(files, user, images)
    ensures Dedupe(images) == [] ==> images == []
  {
    DedupeProps(images);
    DedupeMembers(images);
    DistinctCount(Dedupe(images));
    SomeMember(images);
  }

  lemma PreparedCreateFree(t: seq<Apiary>, files: set<Item>, user: Id, entitlement: string, input: CreateInput,
                           id: Id, now: int, plan: seq<Fault>)
    ensures PrepareCreate(t, files, user, entitlement, input, id, now, plan).result.Ok? && entitlement == ENTITLEMENT_FREE
            ==> Count(t, user) == 0
  {
  }

  function UpdateImageCalls(input: UpdateInput): nat {
    if input.images.Some? then ImageCalls(input.images.value) else 0
  }

  lemma WriteAccessCalls(t: seq<Apiary>, user: Id, entitlement: string, id: Id, plan: seq<Fault>)
    ensures var w, n := WriteAccess(t, user, entitlement, id, plan), 1 + FreeCalls(entitlement);
            var open := entitlement == ENTITLEMENT_FREE ==> id in WritableIDs(t, user, FREE_MAX_APIARIES);
            && (w.result.Ok? <==> open && FirstWork(plan, n))
            && (w.result == Err(ReadOnly) <==> !open && FirstWork(plan, n))
            && (w.result.Err? ==> w.result.error == ReadOnly || w.result.error == Upstream)
            && (w.result.Ok? ==> w.plan == Skip(plan, n))
  {
    FewCalls(plan);
  }

  /** How far an Update gets before it writes. */
  lemma PrepareRefusal(t: seq<Apiary>, files: set<Item>, user: Id, entitlement: string, id: Id, input: UpdateInput,
                       now: int, plan: seq<Fault>)
    requires DistinctIds(t)
    ensures var p := PrepareUpdate(t, files, user, entitlement, id, input, now, plan);
            var n, m := 2 + FreeCalls(entitlement), UpdateImageCalls(input);
            var found := exists a :: a in t && LiveRow(user, id)(a);
            var open := entitlement == ENTITLEMENT_FREE ==> id in WritableIDs(t, user, FREE_MAX_APIARIES);
            var many := input.images.Some? && |Elems(input.images.value)| > MAX_MEDIA_ATTACHMENTS;
            var owned := input.images.Some? ==> AllOwned(files, user, input.images.value);
            && (p.result == Err(NotFound) <==> !found && FirstWork(plan, 1))
            && (p.result == Err(ReadOnly) <==> found && !open && FirstWork(plan, n))
            && (p.result == Err(MediaLimitReached) <==> found && open && many && FirstWork(plan, n))
            && (p.result == Err(ImageNotFound) <==> found && open && !many && !owned && FirstWork(plan, n + m))
            && (p.result.Ok? <==> found && open && !many && owned && FirstWork(plan, n + m))
            && (p.result.Ok? ==> p.plan == Skip(plan, n + m))
            && (p.result.Err? ==> p.result.error in {NotFound, ReadOnly, MediaLimitReached, ImageNotFound, Upstream})
  {
    var n, m := 2 + FreeCalls(entitlement), UpdateImageCalls(input);
    GetByIDProps(t, user, id);
    AccessCalls(t, user, entitlement, id, plan);
    WriteAccessCalls(t, user, entitlement, id, Rest(plan));
    FirstWorkSplit(plan, n, m);
    SkipSplit(plan, n, m);
    FewCalls(Skip(plan, n));
    if input.images.Some? {
      VetImagesCalls(files, user, input.images.value, Skip(plan, n));
    }
  }

  /** A create that reports its row writable is right: under Free the row is the whole writable
      set, and otherwise nothing is restricted. */
  lemma CreateFlagTruthful(t: seq<Apiary>, files: set<Item>, user: Id, entitlement: string, input: CreateInput,
                           id: Id, now: int, plan: seq<Fault>)
    ensures var s := Create(t, files, user, entitlement, input, id, now, plan);
            s.result.Ok? ==>
              && s.result.value.writable
              && s.rows == t + [s.result.value.apiary]
              && s.result.value.apiary.id == id
              && (entitlement == ENTITLEMENT_FREE ==> WritableIDs(s.rows, user, FREE_MAX_APIARIES) == [id])
  {
    PreparedCreate(t, files, user, entitlement, input, id, now, plan);
    PreparedCreateFree(t, files, user, entitlement, input, id, now, plan);
    var p := PrepareCreate(t, files, user, entitlement, input, id, now, plan);
    if p.result.Ok? && entitlement == ENTITLEMENT_FREE {
      OnlyRowWritable(t, p.result.value.0, FREE_MAX_APIARIES);
    }
  }

  /** A live row of the user with the id, the fields and the images of the request, once each,
      as new as `now`. */
  ghost predicate Creates(user: Id, input: CreateInput, id: Id, now: int, a: Apiary) {
    && a.name == input.name && a.location == input.location && a.description == input.description
    && a.lat == input.lat && a.lon == input.lon && Deduplicates(input.images, a.images)
    && a.createdAt == now && a.updatedAt == now && a.id == id && a.userId == user && a.deletedAt.None?
  }

  /** What a successful create stores and returns, whatever broke on the way. */
  lemma CreateExact(t: seq<Apiary>, files: set<Item>, user: Id, entitlement: string, input: CreateInput,
                    id: Id, now: int, plan: seq<Fault>)
    ensures var s := Create(t, files, user, entitlement, input, id, now, plan);
            s.result.Ok? ==>
              && Creates(user, input, id, now, s.result.value.apiary)
              && s.result.value.writable
              && s.rows == t + [s.result.value.apiary]
  {
    VetImagesIff(files, user, input.images, CreateLimit(t, user, entitlement, plan).plan);
    DedupeProps(input.images);
  }

  lemma RewriteIsUpdateAt(t: seq<Apiary>, i: nat, a: Apiary)
    requires DistinctIds(t) && i < |t| && LiveRow(a.userId, a.id)(t[i])
    ensures Rewrite(t, a) == t[i := Edited(t[i], a)]
  {
    forall k | 0 <= k < |t| ensures Rewrite(t, a)[k] == t[i := Edited(t[i], a)][k] {
      assert k != i ==> t[k].id != t[i].id;
    }
  }

  /** `a` is `before` with the fields of the request, changed at `now`, and with the images it
      sends, once each, if it sends any. */
  ghost predicate Edits(before: Apiary, input: UpdateInput, now: int, a: Apiary) {
    && a.name == input.name && a.location == input.location && a.description == input.description
    && a.lat == input.lat && a.lon == input.lon && a.updatedAt == now
    && a.id == before.id && a.userId == before.userId && a.createdAt == before.createdAt && a.deletedAt == before.deletedAt
    && match input.images
       case None => a.images == before.images
       case Some(images) => Deduplicates(images, a.images)
  }

  lemma PreparedUpdateShape(t: seq<Apiary>, files: set<Item>, user: Id, entitlement: string, id: Id,
                            input: UpdateInput, now: int, plan: seq<Fault>)
    ensures var p := PrepareUpdate(t, files, user, entitlement, id, input, now, plan).result;
            p.Ok? ==>
              && GetByID(t, user, id).Ok?
              && Edits(GetByID(t, user, id).value, input, now, p.value)
              && (entitlement == ENTITLEMENT_FREE ==> id in WritableIDs(t, user, FREE_MAX_APIARIES))
  {
    if input.images.Some? {
      VetImagesIff(files, user, input.images.value, WriteAccess(t, user, entitlement, id, Rest(plan)).plan);
      DedupeProps(input.images.value);
    }
  }

  /** A row edited in place, every other row as it was. */
  ghost predicate EditsOne(t: seq<Apiary>, user: Id, id: Id, input: UpdateInput, now: int, a: Apiary, r: seq<Apiary>) {
    exists i :: 0 <= i < |t| && LiveRow(user, id)(t[i]) && Edits(t[i], input, now, a) && r == t[i := a]
  }

  lemma EditedInPlace(t: seq<Apiary>, user: Id, id: Id, input: UpdateInput, now: int, a: Apiary, i: nat)
    requires DistinctIds(t) && i < |t| && LiveRow(user, id)(t[i]) && Edits(t[i], input, now, a)
    ensures EditsOne(t, user, id, input, now, a, Rewrite(t, a))
  {
    RewriteIsUpdateAt(t, i, a);
    assert Edited(t[i], a) == a;
  }

  /** A successful update rewrites exactly its own row, keeps id, owner and age, replaces the
      images only when asked to, and leaves a Free caller's row writable as it says. */
  lemma UpdateExact(t: seq<Apiary>, files: set<Item>, user: Id, entitlement: string, id: Id, input: UpdateInput,
                    now: int, plan: seq<Fault>)
    requires DistinctIds(t)
    ensures var s := Update(t, files, user, entitlement, id, input, now, plan);
            s.result.Ok? ==>
              && s.result.value.writable
              && EditsOne(t, user, id, input, now, s.result.value.apiary, s.rows)
              && (entitlement == ENTITLEMENT_FREE ==> id in WritableIDs(s.rows, user, FREE_MAX_APIARIES))
  {
    PreparedUpdateShape(t, files, user, entitlement, id, input, now, plan);
    GetByIDProps(t, user, id);
    var p := PrepareUpdate(t, files, user, entitlement, id, input, now, plan);
    if p.result.Ok? {
      var a := p.result.value;
      var i :| 0 <= i < |t| && t[i] == GetByID(t, user, id).value;
      EditedInPlace(t, user, id, input, now, a, i);
      UpdateKeepsWritable(t, a, user, FREE_MAX_APIARIES);
    }
  }

  /** The k-th call takes effect on `id`: it works, or only its reply is lost. */
  ghost predicate TakesEffect(plan: seq<Fault>, k: nat, id: Id) {
    match At(plan, k)
    case Works => true
    case Breaks(applied) => id in applied
  }

  lemma NextIsAt(plan: seq<Fault>, k: nat)
    ensures Next(Skip(plan, k)) == At(plan, k)
    decreases k
  {
    if k > 0 {
      NextIsAt(Rest(plan), k - 1);
    }
  }

  lemma PreparedRow(t: seq<Apiary>, files: set<Item>, user: Id, entitlement: string, input: CreateInput,
                    id: Id, now: int, plan: seq<Fault>)
    ensures var p := PrepareCreate(t, files, user, entitlement, input, id, now, plan);
            p.result.Ok? ==>
              && Creates(user, input, id, now, p.result.value.0)
              && CreateWithLimit(t, p.result.value.0, p.result.value.1) == Insert(t, p.result.value.0)
  {
    VetImagesIff(files, user, input.images, CreateLimit(t, user, entitlement, plan).plan);
    DedupeProps(input.images);
  }

  /** Exactly when a create changes the table, and to what, whatever breaks and whatever it
      answers: every condition of success holds, the calls before the insert work, and the
      insert takes effect, its reply possibly lost. */
  lemma CreateEffect(t: seq<Apiary>, files: set<Item>, user: Id, entitlement: string, input: CreateInput,
                     id: Id, now: int, plan: seq<Fault>)
    ensures var rows := Create(t, files, user, entitlement, input, id, now, plan).rows;
            var k := 1 + FreeCalls(entitlement) + ImageCalls(input.images);
            if && (entitlement == ENTITLEMENT_FREE ==> Count(t, user) == 0)
               && |Elems(input.images)| <= MAX_MEDIA_ATTACHMENTS && AllOwned(files, user, input.images)
               && !HasId(t, id) && !NameHeld(t, user, input.name, id)
               && FirstWork(plan, k) && TakesEffect(plan, k, id)
            then exists a :: rows == t + [a] && Creates(user, input, id, now, a)
            else rows == t
  {
    PrepareCreateCalls(t, files, user, entitlement, input, id, now, plan);
    PreparedRow(t, files, user, entitlement, input, id, now, plan);
    NextIsAt(plan, 1 + FreeCalls(entitlement) + ImageCalls(input.images));
  }

  lemma PreparedWrite(t: seq<Apiary>, files: set<Item>, user: Id, entitlement: string, id: Id, input: UpdateInput,
                      now: int, plan: seq<Fault>)
    requires DistinctIds(t)
    ensures var p := PrepareUpdate(t, files, user, entitlement, id, input, now, plan).result;
            p.Ok? ==>
              && p.value.id == id
              && EditsOne(t, user, id, input, now, p.value, Rewrite(t, p.value))
              && Table.Update(t, p.value) == if NameHeld(t, user, input.name, id) then Written(t, Some(NameTaken))
                                             else Written(Rewrite(t, p.value), None)
  {
    PreparedUpdateShape(t, files, user, entitlement, id, input, now, plan);
    GetByIDProps(t, user, id);
    var p := PrepareUpdate(t, files, user, entitlement, id, input, now, plan).result;
    if p.Ok? {
      assert GetByID(t, user, id).value in Filter(t, LiveRow(user, id));
      var i :| 0 <= i < |t| && t[i] == GetByID(t, user, id).value;
      EditedInPlace(t, user, id, input, now, p.value, i);
    }
  }

  lemma PreparedError(t: seq<Apiary>, files: set<Item>, user: Id, entitlement: string, id: Id, input: UpdateInput,
                      now: int, plan: seq<Fault>)
    requires DistinctIds(t)
    ensures var p := PrepareUpdate(t, files, user, entitlement, id, input, now, plan).result;
            p.Ok? ==> Table.Update(t, p.value).error
                      == if NameHeld(t, user, input.name, id) then Some(NameTaken) else None
  {
    PreparedWrite(t, files, user, entitlement, id, input, now, plan);
  }

  /** What an Update answers, whatever breaks: ownership comes first, then write access, then
      the images, then the name; each answer is given when the calls up to it work, and
      anything else is an upstream failure. */
  lemma UpdateRefusal(t: seq<Apiary>, files: set<Item>, user: Id, entitlement: string, id: Id, input: UpdateInput,
                      now: int, plan: seq<Fault>)
    requires DistinctIds(t)
    ensures var r := Update(t, files, user, entitlement, id, input, now, plan).result;
            var n, m := 2 + FreeCalls(entitlement), UpdateImageCalls(input);
            var found := exists a :: a in t && LiveRow(user, id)(a);
            var open := entitlement == ENTITLEMENT_FREE ==> id in WritableIDs(t, user, FREE_MAX_APIARIES);
            var many := input.images.Some? && |Elems(input.images.value)| > MAX_MEDIA_ATTACHMENTS;
            var owned := input.images.Some? ==> AllOwned(files, user, input.images.value);
            && (r == Err(NotFound) <==> !found && FirstWork(plan, 1))
            && (r == Err(ReadOnly) <==> found && !open && FirstWork(plan, n))
            && (r == Err(MediaLimitReached) <==> found && open && many && FirstWork(plan, n))
            && (r == Err(ImageNotFound) <==> found && open && !many && !owned && FirstWork(plan, n + m))
            && (r == Err(NameTaken) <==> found && open && !many && owned && NameHeld(t, user, input.name, id)
                                         && FirstWork(plan, n + m + 1))
            && (r.Ok? <==> found && open && !many && owned && !NameHeld(t, user, input.name, id)
                           && FirstWork(plan, n + m + 1))
            && (r.Err? ==> r.error in {NotFound, ReadOnly, MediaLimitReached, ImageNotFound, NameTaken, Upstream})
  {
    var n := 2 + FreeCalls(entitlement) + UpdateImageCalls(input);
    PrepareRefusal(t, files, user, entitlement, id, input, now, plan);
    FirstWorkSplit(plan, n, 1);
    FewCalls(Skip(plan, n));
    PreparedError(t, files, user, entitlement, id, input, now, plan);
  }

  /** Exactly when an update changes the table, and to what, whatever breaks. */
  lemma UpdateEffect(t: seq<Apiary>, files: set<Item>, user: Id, entitlement: string, id: Id, input: UpdateInput,
                     now: int, plan: seq<Fault>)
    requires DistinctIds(t)
    ensures var rows := Update(t, files, user, entitlement, id, input, now, plan).rows;
            var k := 2 + FreeCalls(entitlement) + UpdateImageCalls(input);
            if && Editable(t, user, id)
               && (entitlement == ENTITLEMENT_FREE ==> id in WritableIDs(t, user, FREE_MAX_APIARIES))
               && (input.images.Some? ==> |Elems(input.images.value)| <= MAX_MEDIA_ATTACHMENTS
                                          && AllOwned(files, user, input.images.value))
               && !NameHeld(t, user, input.name, id)
               && FirstWork(plan, k) && TakesEffect(plan, k, id)
            then exists a :: EditsOne(t, user, id, input, now, a, rows)
            else rows == t
  {
    PrepareRefusal(t, files, user, entitlement, id, input, now, plan);
    PreparedWrite(t, files, user, entitlement, id, input, now, plan);
    NextIsAt(plan, 2 + FreeCalls(entitlement) + UpdateImageCalls(input));
  }

  /** A refused or failed create leaves the table as it was, unless the reply to an insert
      that took effect was lost; only an upstream failure can hide one. */
  lemma CreateErrorLeavesTable(t: seq<Apiary>, files: set<Item>, user: Id, entitlement: string, input: CreateInput,
                               id: Id, now: int, plan: seq<Fault>)
    ensures var s := Create(t, files, user, entitlement, input, id, now, plan);
            s.result.Err? && (FaultFree(plan) || s.result.error != Upstream) ==> s.rows == t
  {
    VetImagesIff(files, user, input.images, CreateLimit(t, user, entitlement, plan).plan);
  }

  /** The same for updates. */
  lemma UpdateErrorLeavesTable(t: seq<Apiary>, files: set<Item>, user: Id, entitlement: string, id: Id,
                               input: UpdateInput, now: int, plan: seq<Fault>)
    ensures var s := Update(t, files, user, entitlement, id, input, now, plan);
            s.result.Err? && (FaultFree(plan) || s.result.error != Upstream) ==> s.rows == t
  {
    if input.images.Some? {
      VetImagesIff(files, user, input.images.value, WriteAccess(t, user, entitlement, id, Rest(plan)).plan);
    }
  }
}
