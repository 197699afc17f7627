/** The service and the clients it calls, step by step as they run. */
module Service {
  import opened Seqs
  import opened Domain
  import opened Table
  import opened Images
  import opened ListQuery
  import opened Repository
  import opened Cascade
  import Ordering
  import R = ServiceRuns
  import S = ServiceSpec

  class HiveService {
    var hives: set<Item>

    constructor ()
      ensures hives == {}
    {
      hives := {};
    }

    method DeleteByApiary(id: Id, f: Fault) returns (err: Option<Error>)
      modifies this
      ensures hives == Without(old(hives), ChildOf(id), f) && err == Upset(f)
    {
      hives := set h | h in hives && !(h.parent == id && (f.Works? || h.id in f.applied));
      err := Upset(f);
    }
  }

  class ReminderService {
    var reminders: set<Item>

    constructor ()
      ensures reminders == {}
    {
      reminders := {};
    }

    method Cleanup(id: Id, f: Fault) returns (err: Option<Error>)
      modifies this
      ensures reminders == Without(old(reminders), ChildOf(id), f) && err == Upset(f)
    {
      reminders := set r | r in reminders && !(r.parent == id && (f.Works? || r.id in f.applied));
      err := Upset(f);
    }
  }

  class MediaService {
    /** Files still stored, each with the user who owns it. */
    var files: set<Item>

    constructor ()
      ensures files == {}
    {
      files := {};
    }

    ghost function Owned(user: Id): set<Id>
      reads this
    {
      set x | x in files && x.parent == user :: x.id
    }

    /** The lookup behind the ownership check: owned ids once each, the others omitted. */
    method Find(user: Id, ids: seq<Id>) returns (items: seq<Id>)
      ensures Answers(ids, Owned(user), items)
    {
      items := [];
      for k := 0 to |ids|
        invariant NoDup(items)
        invariant forall id :: id in items <==> id in ids[..k] && Item(id, user) in files
      {
        if Item(ids[k], user) in files && ids[k] !in items {
          items := items + [ids[k]];
        }
      }
      assert ids[..|ids|] == ids;
    }

    /** The client's check decides by comparing lengths; that decides ownership exactly. */
    method VerifyOwnership(user: Id, ids: seq<Id>, f: Fault) returns (err: Option<Error>)
      ensures f.Breaks? ==> err == Some(Upstream)
      ensures f.Works? ==> (err.None? <==> NoDup(ids) && S.AllOwned(files, user, ids))
      ensures f.Works? && err.Some? ==> err.value == ImageNotFound
    {
      if f.Breaks? {
        return Some(Upstream);
      }
      var items := Find(user, ids);
      CountingIsExact(ids, Owned(user), items);
      assert Elems(ids) <= Owned(user) <==> S.AllOwned(files, user, ids) by {
        OwnedElems(user, ids);
      }
      if |items| != |ids| {
        return Some(ImageNotFound);
      }
      return None;
    }

    lemma OwnedElems(user: Id, ids: seq<Id>)
      ensures Elems(ids) <= Owned(user) <==> S.AllOwned(files, user, ids)
    {
      assert forall id :: id in Owned(user) <==> Item(id, user) in files;
      assert forall id :: id in Elems(ids) <==> id in ids;
    }

    method DeleteByIDs(user: Id, ids: seq<Id>, f: Fault) returns (err: Option<Error>)
      modifies this
      ensures files == Without(old(files), FileOf(user, ids), f) && err == Upset(f)
      ensures files <= old(files)
      ensures forall x :: x in old(files) && x !in files ==> x.parent == user && x.id in ids
      ensures forall other, some :: other != user ==>
                (S.AllOwned(files, other, some) <==> S.AllOwned(old(files), other, some))
      ensures err.None? ==> forall some ::
                S.AllOwned(files, user, some)
                <==> S.AllOwned(old(files), user, some) && forall id :: id in some ==> id !in ids
      ensures Without(files, FileOf(user, ids), Works) == Without(old(files), FileOf(user, ids), Works)
    {
      files := set x | x in files && !(x.parent == user && x.id in ids && (f.Works? || x.id in f.applied));
      err := Upset(f);
    }
  }

  class Service {
    const apiaries: ApiaryRepository
    const hives: HiveService
    const media: MediaService
    const reminders: ReminderService

    /** Whether reminder cleanup was configured when the service was built. */
    const remindersConfigured: bool

    /** The faults of the calls still to come. */
    var plan: seq<Fault>

    constructor (apiaries: ApiaryRepository, hives: HiveService, media: MediaService,
                 reminders: ReminderService, remindersConfigured: bool, plan: seq<Fault>)
      ensures this.apiaries == apiaries && this.hives == hives && this.media == media
      ensures this.reminders == reminders && this.remindersConfigured == remindersConfigured
      ensures this.plan == plan
    {
      this.apiaries, this.hives, this.media, this.reminders := apiaries, hives, media, reminders;
      this.remindersConfigured, this.plan := remindersConfigured, plan;
    }

    ghost function World(): World
      reads this, apiaries, hives, media, reminders
    {
      Cascade.World(apiaries.rows, hives.hives, media.files, reminders.reminders)
    }

    method NextFault() returns (f: Fault)
      modifies this`plan
      ensures f == Next(old(plan)) && plan == Rest(old(plan))
    {
      f := Next(plan);
      plan := Rest(plan);
    }

    /** What subscription-service answers, `entitlement` being what it would say. */
    method GetEntitlement(entitlement: string) returns (r: Result<string>)
      modifies this`plan
      ensures r == if Next(old(plan)).Works? then Ok(entitlement) else Err(Upstream)
      ensures plan == Rest(old(plan))
    {
      var f := NextFault();
      r := if f.Works? then Ok(entitlement) else Err(Upstream);
    }

    method IsWritable(user: Id, id: Id) returns (r: Result<bool>)
      modifies this`plan
      ensures var w := S.FreeWritable(apiaries.rows, user, old(plan));
              && plan == w.plan
              && r == if w.result.Err? then Err(w.result.error) else Ok(id in w.result.value)
    {
      var f := NextFault();
      var found := apiaries.WritableIDs(user, FREE_MAX_APIARIES, f);
      if found.Err? {
        return Err(found.error);
      }
      var ids := found.value;
      for i := 0 to |ids|
        invariant id !in ids[..i]
      {
        if ids[i] == id {
          return Ok(true);
        }
      }
      assert ids[..|ids|] == ids;
      r := Ok(false);
    }

    method ResolveWritable(user: Id, entitlement: string, id: Id) returns (r: Result<bool>)
      modifies this`plan
      ensures S.Answer(r, plan) == S.ResolveWritable(apiaries.rows, user, entitlement, id, old(plan))
    {
      var e := GetEntitlement(entitlement);
      if e.Err? {
        return Err(e.error);
      }
      if e.value != ENTITLEMENT_FREE {
        return Ok(true);
      }
      r := IsWritable(user, id);
    }

    method Get(user: Id, entitlement: string, id: Id) returns (r: Result<S.WithAccess>)
      modifies this`plan
      ensures S.Answer(r, plan) == S.Get(apiaries.rows, user, entitlement, id, old(plan))
    {
      var f := NextFault();
      var found := apiaries.GetByID(user, id, f);
      if found.Err? {
        return Err(found.error);
      }
      var writable := ResolveWritable(user, entitlement, id);
      if writable.Err? {
        return Err(writable.error);
      }
      r := Ok(S.WithAccess(found.value, writable.value));
    }

    method WritableApiaryID(user: Id, entitlement: string) returns (r: Result<(Option<Id>, bool)>)
      modifies this`plan
      ensures S.Answer(r, plan) == S.WritableApiaryID(apiaries.rows, user, entitlement, old(plan))
      ensures Ordering.DistinctIds(apiaries.rows) && r.Ok? ==>
                S.NamesWritable(apiaries.rows, user, entitlement, r.value)
    {
      if Ordering.DistinctIds(apiaries.rows) {
        S.WritableApiaryIDExact(apiaries.rows, user, entitlement, plan);
      }
      var e := GetEntitlement(entitlement);
      if e.Err? {
        return Err(e.error);
      }
      if e.value != ENTITLEMENT_FREE {
        return Ok((None, true));
      }
      var f := NextFault();
      var ids := apiaries.WritableIDs(user, FREE_MAX_APIARIES, f);
      if ids.Err? {
        return Err(ids.error);
      }
      if |ids.value| == 0 {
        return Ok((None, false));
      }
      r := Ok((Some(ids.value[0]), false));
    }

    /** The second half of List: one entitlement lookup, at most one query for the writable
        ids, and a flag per row. */
    method FlagPage(user: Id, entitlement: string, page: seq<Apiary>) returns (r: Result<seq<S.WithAccess>>)
      modifies this`plan
      ensures S.Answer(r, plan) == S.FlagPage(apiaries.rows, user, entitlement, page, old(plan))
    {
      var e := GetEntitlement(entitlement);
      if e.Err? {
        return Err(e.error);
      }
      var writableSet: map<Id, bool> := map[];
      ghost var writable: seq<Id> := [];
      if e.value == ENTITLEMENT_FREE {
        var f := NextFault();
        var found := apiaries.WritableIDs(user, FREE_MAX_APIARIES, f);
        if found.Err? {
          return Err(found.error);
        }
        var ids := found.value;
        writable := ids;
        for i := 0 to |ids|
          invariant forall id :: id in writableSet && writableSet[id] <==> id in ids[..i]
        {
          writableSet := writableSet[ids[i] := true];
        }
        assert ids[..|ids|] == ids;
      }
      ghost var flagged := S.Flagged(page, e.value == ENTITLEMENT_FREE, writable);
      var out: seq<S.WithAccess> := [];
      for i := 0 to |page|
        invariant out == flagged[..i]
      {
        var a := page[i];
        out := out + [S.WithAccess(a, e.value != ENTITLEMENT_FREE || (a.id in writableSet && writableSet[a.id]))];
      }
      assert flagged[..|page|] == flagged;
      r := Ok(out);
    }

    method List(user: Id, entitlement: string, page: nat, limit: nat, search: Option<string>,
                sortOrder: Option<string>, withoutHives: bool, hiveIds: seq<Id>)
      returns (r: Result<(seq<S.WithAccess>, nat)>)
      requires page >= 1
      modifies this`plan
      ensures S.Answer(r, plan)
           == S.List(apiaries.fold, apiaries.rows, user, entitlement, page, limit, search, sortOrder,
                     withoutHives, hiveIds, old(plan))
      ensures Ordering.DistinctIds(apiaries.rows) && r.Ok? ==>
                S.Lists(apiaries.fold, apiaries.rows, user, page, limit, search, sortOrder, withoutHives, hiveIds, r.value)
    {
      if Ordering.DistinctIds(apiaries.rows) {
        S.ListExact(apiaries.fold, apiaries.rows, user, entitlement, page, limit, search, sortOrder, withoutHives,
                    hiveIds, plan);
      }
      var apiaryIDsWithHives: Option<seq<Id>> := None;
      if withoutHives {
        var f := NextFault();
        if f.Breaks? {
          return Err(Upstream);
        }
        apiaryIDsWithHives := Some(hiveIds);
      }
      var f := NextFault();
      var found := apiaries.ListByUser(user, page, limit, sortOrder,
                                       Filters(search, withoutHives, apiaryIDsWithHives), f);
      if found.Err? {
        return Err(found.error);
      }
      var flagged := FlagPage(user, entitlement, found.value.0);
      if flagged.Err? {
        return Err(flagged.error);
      }
      r := Ok((flagged.value, found.value.1));
    }

    method VetImages(user: Id, images: seq<Id>) returns (r: Result<seq<Id>>)
      modifies this`plan
      ensures S.Answer(r, plan) == S.VetImages(media.files, user, images, old(plan))
    {
      var dedup := DedupeImages(images);
      if |dedup| > MAX_MEDIA_ATTACHMENTS {
        return Err(MediaLimitReached);
      }
      if |dedup| > 0 {
        var f := NextFault();
        var err := media.VerifyOwnership(user, dedup, f);
        if err.Some? {
          return Err(err.value);
        }
      }
      r := Ok(dedup);
    }

    method Create(user: Id, entitlement: string, input: S.CreateInput, id: Id, now: int)
      returns (r: Result<S.WithAccess>)
      modifies this`plan, apiaries`rows
      ensures S.Served(r, apiaries.rows, plan)
           == S.Create(old(apiaries.rows), media.files, user, entitlement, input, id, now, old(plan))
      ensures (World(), R.Row(r))
           == R.Serve(old(World()), remindersConfigured, R.Create(user, entitlement, input, id, now), old(plan))
      ensures r.Ok? ==> S.Creates(user, input, id, now, r.value.apiary)
                        && apiaries.rows == old(apiaries.rows) + [r.value.apiary]
    {
      S.CreateExact(apiaries.rows, media.files, user, entitlement, input, id, now, plan);
      var e := GetEntitlement(entitlement);
      if e.Err? {
        return Err(e.error);
      }
      var maxApiaries: nat := 0;
      if e.value == ENTITLEMENT_FREE {
        var f := NextFault();
        var count := apiaries.CountByUser(user, f);
        if count.Err? {
          return Err(count.error);
        }
        if count.value >= FREE_MAX_APIARIES {
          return Err(LimitReached);
        }
        maxApiaries := FREE_MAX_APIARIES;
      }
      var images := VetImages(user, input.images);
      if images.Err? {
        return Err(images.error);
      }
      var a := S.NewRow(user, input, images.value, id, now);
      var f := NextFault();
      var err := apiaries.CreateWithLimit(a, maxApiaries, f);
      if err.Some? {
        return Err(err.value);
      }
      r := Ok(S.WithAccess(a, true));
    }

    /** The part of Update that refuses a Free caller's read-only apiary. */
    method RequireWritable(user: Id, entitlement: string, id: Id) returns (r: Result<bool>)
      modifies this`plan
      ensures S.Answer(r, plan) == S.WriteAccess(apiaries.rows, user, entitlement, id, old(plan))
    {
      var e := GetEntitlement(entitlement);
      if e.Err? {
        return Err(e.error);
      }
      if e.value == ENTITLEMENT_FREE {
        var writable := IsWritable(user, id);
        if writable.Err? {
          return Err(writable.error);
        }
        if !writable.value {
          return Err(ReadOnly);
        }
      }
      r := Ok(true);
    }

    method Update(user: Id, entitlement: string, id: Id, input: S.UpdateInput, now: int)
      returns (r: Result<S.WithAccess>)
      modifies this`plan, apiaries`rows
      ensures S.Served(r, apiaries.rows, plan)
           == S.Update(old(apiaries.rows), media.files, user, entitlement, id, input, now, old(plan))
      ensures (World(), R.Row(r))
           == R.Serve(old(World()), remindersConfigured, R.Update(user, entitlement, id, input, now), old(plan))
      ensures Ordering.DistinctIds(old(apiaries.rows)) && r.Ok? ==>
                S.EditsOne(old(apiaries.rows), user, id, input, now, r.value.apiary, apiaries.rows)
    {
      if Ordering.DistinctIds(apiaries.rows) {
        S.UpdateExact(apiaries.rows, media.files, user, entitlement, id, input, now, plan);
      }
      var f := NextFault();
      var found := apiaries.GetByID(user, id, f);
      if found.Err? {
        return Err(found.error);
      }
      var a := found.value;
      var access := RequireWritable(user, entitlement, id);
      if access.Err? {
        return Err(access.error);
      }
      if input.images.Some? {
        var images := VetImages(user, input.images.value);
        if images.Err? {
          return Err(images.error);
        }
        a := a.(images := images.value);
      }
      a := a.(name := input.name, location := input.location, description := input.description);
      a := a.(lat := input.lat, lon := input.lon, updatedAt := now);
      f := NextFault();
      var err := apiaries.Update(a, f);
      if err.Some? {
        return Err(err.value);
      }
      r := Ok(S.WithAccess(a, true));
    }

    /** What is left of a script leads to the same end. */
    static ghost predicate Reaches(w: World, steps: seq<Step>, plan: seq<Fault>, r: Ran) {
      var rest := Run(w, steps, plan);
      rest.world == r.world && rest.error == r.error && rest.plan == r.plan
    }

    static ghost predicate Ends(w: World, error: Option<Error>, plan: seq<Fault>, r: Ran) {
      w == r.world && error == r.error && plan == r.plan
    }

    /** One call of a script: it ends the run, or what is left leads to the same end. */
    static lemma OneCall(w: World, s: Step, rest: seq<Step>, plan: seq<Fault>, r: Ran)
      requires Reaches(w, [s] + rest, plan, r)
      ensures var (next, error) := Perform(w, s, Next(plan));
              if error.Some? then Ends(next, error, Rest(plan), r) else Reaches(next, rest, Rest(plan), r)
    {
      RunCons(w, s, rest, plan);
    }

    static lemma NoCall(w: World, steps: seq<Step>, plan: seq<Fault>, r: Ran)
      requires Reaches(w, [] + steps, plan, r)
      ensures Reaches(w, steps, plan, r)
    {
      assert [] + steps == steps;
    }

    static lemma LastCall(w: World, s: Step, plan: seq<Fault>, r: Ran)
      requires Reaches(w, [s], plan, r)
      ensures var (next, error) := Perform(w, s, Next(plan));
              Ends(next, error, Rest(plan), r)
    {
      assert [s] + [] == [s];
      RunCons(w, s, [], plan);
    }

    // The four calls of a cascade, each under the next fault of the schedule.

    method CallHives(id: Id) returns (err: Option<Error>)
      modifies this`plan, hives
      ensures (World(), err) == Perform(old(World()), DropHives(id), Next(old(plan))) && plan == Rest(old(plan))
    {
      var f := NextFault();
      err := hives.DeleteByApiary(id, f);
    }

    method CallMedia(user: Id, ids: seq<Id>) returns (err: Option<Error>)
      modifies this`plan, media
      ensures (World(), err) == Perform(old(World()), DropMedia(user, ids), Next(old(plan))) && plan == Rest(old(plan))
    {
      var f := NextFault();
      err := media.DeleteByIDs(user, ids, f);
    }

    method CallReminders(id: Id) returns (err: Option<Error>)
      modifies this`plan, reminders
      ensures (World(), err) == Perform(old(World()), DropReminders(id), Next(old(plan))) && plan == Rest(old(plan))
    {
      var f := NextFault();
      err := reminders.Cleanup(id, f);
    }

    method CallDelete(user: Id, id: Id) returns (err: Option<Error>)
      modifies this`plan, apiaries`rows
      ensures (World(), err) == Perform(old(World()), DropRow(user, id), Next(old(plan))) && plan == Rest(old(plan))
    {
      var f := NextFault();
      err := apiaries.HardDelete(user, id, f);
    }

    /** deleteCascade: no rollback, and the apiary's row goes last. */
    method DeleteCascade(user: Id, a: Apiary) returns (err: Option<Error>)
      modifies this`plan, apiaries`rows, hives, media, reminders
      ensures var r := Run(old(World()), Script(user, remindersConfigured, a), old(plan));
              World() == r.world && err == r.error && plan == r.plan
    {
      ghost var row := [DropRow(user, a.id)];
      ghost var late := ReminderSteps(remindersConfigured, a) + row;
      ghost var r := Run(World(), Script(user, remindersConfigured, a), plan);
      OneCall(World(), DropHives(a.id), MediaSteps(user, a) + late, plan, r);
      err := CallHives(a.id);
      if err.Some? {
        return;
      }
      if |a.images| > 0 {
        OneCall(World(), DropMedia(user, a.images), late, plan, r);
        err := CallMedia(user, a.images);
        if err.Some? {
          return;
        }
      } else {
        NoCall(World(), late, plan, r);
      }
      if remindersConfigured {
        OneCall(World(), DropReminders(a.id), row, plan, r);
        err := CallReminders(a.id);
        if err.Some? {
          return;
        }
      } else {
        NoCall(World(), row, plan, r);
      }
      LastCall(World(), DropRow(user, a.id), plan, r);
      err := CallDelete(user, a.id);
    }

    method Delete(user: Id, id: Id) returns (err: Option<Error>)
      modifies this`plan, apiaries`rows, hives, media, reminders
      ensures var r := DeleteOne(old(World()), user, remindersConfigured, id, old(plan));
              World() == r.world && err == r.error && plan == r.plan
      ensures (World(), R.Status(err))
           == R.Serve(old(World()), remindersConfigured, R.Delete(user, id), old(plan))
    {
      var f := NextFault();
      var found := apiaries.GetByID(user, id, f);
      if found.Err? {
        return Some(found.error);
      }
      err := DeleteCascade(user, found.value);
    }

    method DeleteAllByUser(user: Id) returns (err: Option<Error>)
      modifies this`plan, apiaries`rows, hives, media, reminders
      ensures var b := DeleteAll(old(World()), user, remindersConfigured, old(plan));
              World() == b.ran.world && err == b.ran.error && plan == b.ran.plan
      ensures (World(), R.Status(err))
           == R.Serve(old(World()), remindersConfigured, R.DeleteAllByUser(user), old(plan))
      ensures Ordering.DistinctIds(old(apiaries.rows)) ==> OldestGone(old(apiaries.rows), user, apiaries.rows)
    {
      if Ordering.DistinctIds(apiaries.rows) {
        OldestFirst(World(), user, remindersConfigured, plan);
      }
      var f := NextFault();
      var found := apiaries.ListAllByUser(user, f);
      if found.Err? {
        return Some(found.error);
      }
      var list := found.value;
      ghost var all := RunBatch(World(), user, remindersConfigured, list, plan).ran;
      assert list[0..] == list;
      for i := 0 to |list|
        invariant var b := RunBatch(World(), user, remindersConfigured, list[i..], plan).ran;
                  b.world == all.world && b.error == all.error && b.plan == all.plan
      {
        assert list[i..][1..] == list[i + 1..];
        err := DeleteCascade(user, list[i]);
        if err.Some? {
          return;
        }
      }
      err := None;
    }

    method DeleteLocalByUser(user: Id) returns (err: Option<Error>)
      modifies this`plan, apiaries`rows
      ensures Written(apiaries.rows, err)
           == Delivered(old(apiaries.rows), Written(DeleteAllByUserHard(old(apiaries.rows), user), None), user,
                        Next(old(plan)))
      ensures (World(), R.Status(err))
           == R.Serve(old(World()), remindersConfigured, R.DeleteLocalByUser(user), old(plan))
      ensures plan == Rest(old(plan))
    {
      var f := NextFault();
      err := apiaries.DeleteAllByUserHard(user, f);
    }
  }
}
