/** The repository: every method runs its statement on the table, which the class holds. The
    fault passed in says how the call to the database ends. */
module Repository {
  import opened Seqs
  import opened Domain
  import opened Ordering
  import opened ListQuery
  import opened Table
  import Cascade
  import Writability

  // ---- what the fixed statements select ----

  lemma LiveOfUser(fold: char -> char, t: seq<Apiary>, q: Statement, user: Id, more: seq<Value>)
    requires q.conjuncts == [UserIdIs(1), NotDeleted]
    ensures Filter(t, Where(fold, q, [Uuid(user)] + more)) == Filter(t, LiveOf(user))
    ensures HighestOf(q.conjuncts) == 1
  {
    var args := [Uuid(user)] + more;
    HighestTwo(UserIdIs(1), NotDeleted);
    forall row | row in t ensures Where(fold, q, args)(row) <==> LiveOf(user)(row) {
      if Where(fold, q, args)(row) {
        assert CondHolds(fold, args, UserIdIs(1), row) && CondHolds(fold, args, NotDeleted, row);
      }
    }
    FilterSame(t, Where(fold, q, args), LiveOf(user));
  }

  lemma AllOfUser(fold: char -> char, t: seq<Apiary>, q: Statement, user: Id)
    requires q.conjuncts == [UserIdIs(1)]
    ensures Filter(t, Where(fold, q, [Uuid(user)])) == Filter(t, OwnedBy(user))
    ensures HighestOf(q.conjuncts) == 1
  {
    HighestOne(UserIdIs(1));
    forall row | row in t ensures Where(fold, q, [Uuid(user)])(row) <==> OwnedBy(user)(row) {
      if Where(fold, q, [Uuid(user)])(row) {
        assert CondHolds(fold, [Uuid(user)], UserIdIs(1), row);
      }
    }
    FilterSame(t, Where(fold, q, [Uuid(user)]), OwnedBy(user));
  }

  lemma OneOfUser(fold: char -> char, t: seq<Apiary>, q: Statement, user: Id, id: Id)
    requires q.conjuncts == [IdIs(1), UserIdIs(2), NotDeleted]
    ensures Filter(t, Where(fold, q, [Uuid(id), Uuid(user)])) == Filter(t, LiveRow(user, id))
    ensures HighestOf(q.conjuncts) == 2
  {
    var args := [Uuid(id), Uuid(user)];
    HighestThree(IdIs(1), UserIdIs(2), NotDeleted);
    forall row | row in t ensures Where(fold, q, args)(row) <==> LiveRow(user, id)(row) {
      if Where(fold, q, args)(row) {
        assert CondHolds(fold, args, IdIs(1), row) && CondHolds(fold, args, UserIdIs(2), row);
        assert CondHolds(fold, args, NotDeleted, row);
      }
    }
    FilterSame(t, Where(fold, q, args), LiveRow(user, id));
  }

  lemma WritableSelect(fold: char -> char, t: seq<Apiary>, user: Id, limit: int, q: Statement, args: seq<Value>)
    requires q.conjuncts == [UserIdIs(1), NotDeleted] && q.order == Some(Asc)
    requires if limit > 0 then q.page == OnlyLimit(2) && args == [Uuid(user)] + [Number(limit)]
             else q.page == WholeTable && args == [Uuid(user)] + []
    ensures Accepts(q, args)
    ensures Writability.Ids(SelectRows(fold, t, q, args)) == Writability.WritableIDs(t, user, limit)
  {
    LiveOfUser(fold, t, q, user, if limit > 0 then [Number(limit)] else []);
  }

  class ApiaryRepository {
    var rows: seq<Apiary>

    /** How the database's locale folds case. */
    const fold: char -> char

    constructor (fold: char -> char)
      ensures rows == [] && this.fold == fold
    {
      rows := [];
      this.fold := fold;
    }

    method Create(a: Apiary, f: Fault) returns (err: Option<Error>)
      modifies this`rows
      ensures Written(rows, err) == Delivered(old(rows), Insert(old(rows), a), a.id, f)
      ensures rows == old(rows) || rows == old(rows) + [a]
      ensures err.None? ==> rows == old(rows) + [a]
      ensures err.Some? && err.value != Upstream ==> rows == old(rows)
      ensures Valid(old(rows)) ==> Valid(rows)
      ensures Valid(old(rows)) && f.Works? ==>
                && (err.None? <==> Valid(old(rows) + [a]))
                && (err == Some(NameTaken) <==> DistinctIds(old(rows) + [a]) && !UniqueLiveNames(old(rows) + [a]))
    {
      if Valid(rows) {
        InsertExact(rows, a);
      }
      var w := Insert(rows, a);
      if f.Breaks? {
        if a.id in f.applied {
          rows := w.table;
        }
        return Some(Upstream);
      }
      rows := w.table;
      return w.error;
    }

    method CountByUser(user: Id, f: Fault) returns (r: Result<nat>)
      ensures r == if f.Works? then Ok(Count(rows, user)) else Err(Upstream)
    {
      if f.Breaks? {
        return Err(Upstream);
      }
      var q := Statement([UserIdIs(1), NotDeleted], None, WholeTable);
      LiveOfUser(fold, rows, q, user, []);
      assert [Uuid(user)] + [] == [Uuid(user)];
      r := Ok(SelectCount(fold, rows, q, [Uuid(user)]));
    }

    /** Undisturbed, this is the whole of CreateWithLimit; the interleavings of its statements
        are the subject of QuotaProtocol. */
    method CreateWithLimit(a: Apiary, maxCount: int, f: Fault) returns (err: Option<Error>)
      modifies this`rows
      ensures Written(rows, err) == Delivered(old(rows), Table.CreateWithLimit(old(rows), a, maxCount), a.id, f)
    {
      if maxCount <= 0 {
        err := Create(a, f);
        return;
      }
      var count := CountByUser(a.userId, Works);
      if count.value >= maxCount {
        return if f.Works? then Some(LimitReached) else Some(Upstream);
      }
      err := Create(a, f);
    }

    method GetByID(user: Id, id: Id, f: Fault) returns (r: Result<Apiary>)
      ensures r == if f.Works? then Table.GetByID(rows, user, id) else Err(Upstream)
    {
      if f.Breaks? {
        return Err(Upstream);
      }
      var q := Statement([IdIs(1), UserIdIs(2), NotDeleted], None, WholeTable);
      OneOfUser(fold, rows, q, user, id);
      var found := SelectRows(fold, rows, q, [Uuid(id), Uuid(user)]);
      r := if found == [] then Err(NotFound) else Ok(found[0]);
    }

    /** A page of the wanted rows and their total number. */
    method ListByUser(user: Id, page: nat, limit: nat, sortOrder: Option<string>, f: Filters, fault: Fault)
      returns (r: Result<(seq<Apiary>, nat)>)
      requires page >= 1
      ensures r == if fault.Breaks? then Err(Upstream)
                   else Ok((Slice(Matching(fold, rows, user, f, CreatedAtOrder(sortOrder)), Offset(page, limit), limit),
                            |Filter(rows, Wanted(fold, user, f))|))
      ensures r.Ok? ==> Sorted(if sortOrder == Some("desc") then Desc else Asc, r.value.0)
      ensures r.Ok? ==> forall a :: a in r.value.0 ==> a in rows && Wanted(fold, user, f)(a)
    {
      PageSorted(fold, rows, user, f, CreatedAtOrder(sortOrder), Offset(page, limit), limit);
      if fault.Breaks? {
        return Err(Upstream);
      }
      var countQ, countArgs, q, listArgs := BuildListQueries(user, limit, Offset(page, limit), sortOrder, f);
      FilterSame(rows, Where(fold, countQ, countArgs), Wanted(fold, user, f));
      FilterSame(rows, Where(fold, q, listArgs), Wanted(fold, user, f));
      var total := SelectCount(fold, rows, countQ, countArgs);
      var found := SelectRows(fold, rows, q, listArgs);
      var apiaries := [];
      for i := 0 to |found|
        invariant apiaries == found[..i]
      {
        apiaries := apiaries + [found[i]];
      }
      assert found[..|found|] == found;
      r := Ok((apiaries, total));
    }

    method ListAllByUser(user: Id, f: Fault) returns (r: Result<seq<Apiary>>)
      ensures r == if f.Works? then Ok(Cascade.ListAll(rows, user)) else Err(Upstream)
      ensures r.Ok? ==> Sorted(Asc, r.value) && multiset(r.value) == multiset(Filter(rows, OwnedBy(user)))
    {
      Cascade.ListAllSorted(rows, user);
      if f.Breaks? {
        return Err(Upstream);
      }
      var q := Statement([UserIdIs(1)], Some(Asc), WholeTable);
      AllOfUser(fold, rows, q, user);
      var found := SelectRows(fold, rows, q, [Uuid(user)]);
      var apiaries := [];
      for i := 0 to |found|
        invariant apiaries == found[..i]
      {
        apiaries := apiaries + [found[i]];
      }
      assert found[..|found|] == found;
      r := Ok(apiaries);
    }

    method Update(a: Apiary, f: Fault) returns (err: Option<Error>)
      modifies this`rows
      ensures Written(rows, err) == Delivered(old(rows), Table.Update(old(rows), a), a.id, f)
      ensures |rows| == |old(rows)|
      ensures forall i :: 0 <= i < |rows| ==>
                && rows[i].id == old(rows)[i].id && rows[i].userId == old(rows)[i].userId
                && rows[i].createdAt == old(rows)[i].createdAt
                && (!LiveRow(a.userId, a.id)(old(rows)[i]) ==> rows[i] == old(rows)[i])
                && (LiveRow(a.userId, a.id)(old(rows)[i]) && err.None? ==> rows[i] == Edited(old(rows)[i], a))
      ensures err.Some? && err.value != Upstream ==> rows == old(rows)
      ensures Valid(old(rows)) ==> Valid(rows)
      ensures Valid(old(rows)) && f.Works? ==>
                && (err == Some(NotFound) <==> !Editable(old(rows), a.userId, a.id))
                && (err == Some(NameTaken)
                    <==> Editable(old(rows), a.userId, a.id) && !Valid(Rewrite(old(rows), a)))
                && (err.None? <==> Editable(old(rows), a.userId, a.id) && Valid(Rewrite(old(rows), a)))
    {
      if Valid(rows) {
        UpdateExact(rows, a);
      }
      var w := Table.Update(rows, a);
      if f.Breaks? {
        if a.id in f.applied {
          rows := w.table;
        }
        return Some(Upstream);
      }
      rows := w.table;
      return w.error;
    }

    /** The row loop of WritableIDs. */
    static method ScanIDs(found: seq<Apiary>) returns (ids: seq<Id>)
      ensures ids == Writability.Ids(found)
    {
      ids := [];
      for i := 0 to |found|
        invariant |ids| == i
        invariant forall k :: 0 <= k < i ==> ids[k] == found[k].id
      {
        ids := ids + [found[i].id];
      }
    }

    /** The oldest live ids; LIMIT is added only for a positive limit. */
    method WritableIDs(user: Id, limit: int, f: Fault) returns (r: Result<seq<Id>>)
      ensures r == if f.Works? then Ok(Writability.WritableIDs(rows, user, limit)) else Err(Upstream)
    {
      if f.Breaks? {
        return Err(Upstream);
      }
      var q := Statement([UserIdIs(1), NotDeleted], Some(Asc), WholeTable);
      var args := [Uuid(user)];
      if limit > 0 {
        q := q.(page := OnlyLimit(2));
        args := args + [Number(limit)];
      }
      assert [Uuid(user)] + [] == [Uuid(user)];
      WritableSelect(fold, rows, user, limit, q, args);
      var ids := ScanIDs(SelectRows(fold, rows, q, args));
      r := Ok(ids);
    }

    method HardDelete(user: Id, id: Id, f: Fault) returns (err: Option<Error>)
      modifies this`rows
      ensures Written(rows, err) == Delivered(old(rows), Table.HardDelete(old(rows), user, id), id, f)
      ensures rows == Filter(old(rows), Cascade.RowOf(rows))
      ensures forall r :: r in old(rows) && r !in rows ==> r.userId == user && r.id == id
      ensures err.None? ==> forall r :: r in rows ==> !(r.userId == user && r.id == id)
      ensures err == Some(NotFound) ==> rows == old(rows)
      ensures Valid(old(rows)) ==> Valid(rows) && |old(rows)| - 1 <= |rows|
      ensures Valid(old(rows)) && f.Works? ==>
                if exists r :: r in old(rows) && r.userId == user && r.id == id then err.None? else err == Some(NotFound)
    {
      if Valid(rows) {
        HardDeleteExact(rows, user, id);
      }
      Cascade.SubsequenceFilter(rows, OtherThan(user, id));
      FilterAll(rows, Cascade.RowOf(rows));
      if |Filter(rows, OtherThan(user, id))| == |rows| {
        FilterWhole(rows, OtherThan(user, id));
      }
      var rest := Filter(rows, OtherThan(user, id));
      var affected := |rows| - |rest|;
      if f.Breaks? {
        if id in f.applied {
          rows := rest;
        }
        return Some(Upstream);
      }
      rows := rest;
      return if affected == 0 then Some(NotFound) else None;
    }

    method DeleteAllByUserHard(user: Id, f: Fault) returns (err: Option<Error>)
      modifies this`rows
      ensures Written(rows, err)
           == Delivered(old(rows), Written(Table.DeleteAllByUserHard(old(rows), user), None), user, f)
      ensures rows == old(rows) || Filter(rows, OwnedBy(user)) == []
      ensures err.None? ==> Filter(rows, OwnedBy(user)) == []
      ensures forall other :: other != user ==> Filter(rows, OwnedBy(other)) == Filter(old(rows), OwnedBy(other))
      ensures Valid(old(rows)) ==> Valid(rows)
      ensures err == Cascade.Upset(f)
    {
      SweepExact(rows, user);
      if f.Breaks? {
        if user in f.applied {
          rows := Filter(rows, NotOwnedBy(user));
        }
        return Some(Upstream);
      }
      rows := Filter(rows, NotOwnedBy(user));
      err := None;
    }
  }
}
