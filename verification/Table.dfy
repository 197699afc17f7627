/** The apiaries table and the meaning of each SQL statement the repository runs on it.
    A table is a sequence because storage order exists; no statement's result depends on it. */
module Table {
  import opened Seqs
  import opened Domain
  import opened Ordering

  /** What a write leaves behind: the new table, and the error the statement raised. */
  datatype Written = Written(table: seq<Apiary>, error: Option<Error>)

  function OwnedBy(user: Id): Apiary -> bool {
    (a: Apiary) => a.userId == user
  }

  function NotOwnedBy(user: Id): Apiary -> bool {
    (a: Apiary) => a.userId != user
  }

  function LiveOf(user: Id): Apiary -> bool {
    (a: Apiary) => a.userId == user && a.Live()
  }

  function LiveRow(user: Id, id: Id): Apiary -> bool {
    (a: Apiary) => a.userId == user && a.Live() && a.id == id
  }

  function OtherThan(user: Id, id: Id): Apiary -> bool {
    (a: Apiary) => !(a.userId == user && a.id == id)
  }

  ghost predicate UniqueLiveNames(t: seq<Apiary>) {
    forall i, j :: 0 <= i < j < |t| && t[i].Live() && t[j].Live() && t[i].userId == t[j].userId
      ==> t[i].name != t[j].name
  }

  /** The primary key and the partial unique index on (user_id, name) of live rows. */
  ghost predicate Valid(t: seq<Apiary>) {
    DistinctIds(t) && UniqueLiveNames(t)
  }

  predicate HasId(t: seq<Apiary>, id: Id) {
    exists a :: a in t && a.id == id
  }

  /** Some live row of `user` other than `except` carries `name`. */
  predicate NameHeld(t: seq<Apiary>, user: Id, name: string, except: Id) {
    exists a :: a in t && a.userId == user && a.Live() && a.name == name && a.id != except
  }

  function Count(t: seq<Apiary>, user: Id): nat {
    |Filter(t, LiveOf(user))|
  }

  /** INSERT. The primary key is checked before the name index; its violation is not the
      one the repository translates. */
  function Insert(t: seq<Apiary>, row: Apiary): Written {
    if HasId(t, row.id) then Written(t, Some(Upstream))
    else if row.Live() && NameHeld(t, row.userId, row.name, row.id) then Written(t, Some(NameTaken))
    else Written(t + [row], None)
  }

  /** The contract of CreateWithLimit: limit first, then name, then insert, all at once. */
  function CreateWithLimit(t: seq<Apiary>, row: Apiary, maxCount: int): Written {
    if maxCount > 0 && Count(t, row.userId) >= maxCount then Written(t, Some(LimitReached))
    else Insert(t, row)
  }

  function GetByID(t: seq<Apiary>, user: Id, id: Id): Result<Apiary> {
    var hits := Filter(t, LiveRow(user, id));
    if hits == [] then Err(NotFound) else Ok(hits[0])
  }

  function Edited(row: Apiary, a: Apiary): Apiary {
    row.(name := a.name, location := a.location, description := a.description,
          lat := a.lat, lon := a.lon, images := a.images, updatedAt := a.updatedAt)
  }

  function RewriteOne(row: Apiary, a: Apiary): Apiary {
    if LiveRow(a.userId, a.id)(row) then Edited(row, a) else row
  }

  function Rewrite(t: seq<Apiary>, a: Apiary): seq<Apiary> {
    seq(|t|, i requires 0 <= i < |t| => RewriteOne(t[i], a))
  }

  /** UPDATE ... WHERE id = and user_id = and deleted_at IS NULL. */
  function Update(t: seq<Apiary>, a: Apiary): Written {
    if Filter(t, LiveRow(a.userId, a.id)) == [] then Written(t, Some(NotFound))
    else if NameHeld(t, a.userId, a.name, a.id) then Written(t, Some(NameTaken))
    else Written(Rewrite(t, a), None)
  }

  /** DELETE ... WHERE id = and user_id =, soft-deleted rows included. */
  function HardDelete(t: seq<Apiary>, user: Id, id: Id): Written {
    var rest := Filter(t, OtherThan(user, id));
    Written(rest, if |rest| == |t| then Some(NotFound) else None)
  }

  function DeleteAllByUserHard(t: seq<Apiary>, user: Id): seq<Apiary> {
    Filter(t, NotOwnedBy(user))
  }

  /** A write whose call may break: with the reply lost the statement has taken effect. */
  function Delivered(t: seq<Apiary>, w: Written, id: Id, f: Fault): Written {
    match f
    case Works => w
    case Breaks(applied) => Written(if id in applied then w.table else t, Some(Upstream))
  }

  // ---- counting live rows ----

  lemma CountSnoc(t: seq<Apiary>, row: Apiary, user: Id)
    ensures Count(t + [row], user) == Count(t, user) + (if LiveOf(user)(row) then 1 else 0)
  {
    FilterSnoc(t, row, LiveOf(user));
  }

  lemma {:induction false} CountFilter(t: seq<Apiary>, p: Apiary -> bool, user: Id)
    ensures Count(Filter(t, p), user) <= Count(t, user)
  {
    if t != [] {
      var front, last := t[..|t| - 1], t[|t| - 1];
      CountFilter(front, p, user);
      FilterSnoc(front, last, LiveOf(user));
      assert t == front + [last];
      if p(last) {
        FilterSnoc(Filter(front, p), last, LiveOf(user));
      }
    }
  }

  lemma {:induction false} RewriteFilter(t: seq<Apiary>, a: Apiary, p: Apiary -> bool)
    requires forall r {:trigger RewriteOne(r, a)} :: p(RewriteOne(r, a)) == p(r)
    ensures Filter(Rewrite(t, a), p) == Rewrite(Filter(t, p), a)
  {
    if t != [] {
      var front, last := t[..|t| - 1], t[|t| - 1];
      RewriteFilter(front, a, p);
      assert Rewrite(t, a) == Rewrite(front, a) + [RewriteOne(last, a)];
      FilterSnoc(Rewrite(front, a), RewriteOne(last, a), p);
      var f := Filter(front, p);
      assert Rewrite(f + [last], a) == Rewrite(f, a) + [RewriteOne(last, a)];
      assert p(RewriteOne(last, a)) == p(last);
    }
  }

  lemma CountRewrite(t: seq<Apiary>, a: Apiary, user: Id)
    ensures Count(Rewrite(t, a), user) == Count(t, user)
  {
    RewriteFilter(t, a, LiveOf(user));
  }

  lemma {:induction false} NoneMatch(t: seq<Apiary>, p: Apiary -> bool)
    requires forall a :: a in t ==> !p(a)
    ensures Filter(t, p) == []
  {
    if t != [] {
      assert t[|t| - 1] in t;
      NoneMatch(t[..|t| - 1], p);
    }
  }

  // ---- the keys survive every statement ----

  lemma {:induction false} ValidFilter(t: seq<Apiary>, p: Apiary -> bool)
    requires Valid(t)
    ensures Valid(Filter(t, p))
  {
    DistinctIdsFilter(t, p);
    if t != [] {
      var front, last := t[..|t| - 1], t[|t| - 1];
      ValidFilter(front, p);
      var f := Filter(front, p);
      forall i | 0 <= i < |f| && f[i].Live() && last.Live() && f[i].userId == last.userId
        ensures f[i].name != last.name
      {
        assert f[i] in f;
      }
    }
  }

  lemma ValidInsert(t: seq<Apiary>, row: Apiary)
    requires Valid(t)
    ensures Valid(Insert(t, row).table)
  {
  }

  lemma ValidUpdate(t: seq<Apiary>, a: Apiary)
    requires Valid(t)
    ensures Valid(Update(t, a).table)
  {
    var r := Update(t, a).table;
    forall i, j | 0 <= i < j < |r| && r[i].Live() && r[j].Live() && r[i].userId == r[j].userId
      ensures r[i].name != r[j].name
    {
      assert t[i] in t && t[j] in t;
    }
  }

  // ---- each write refuses exactly what the keys forbid, and touches nothing else ----

  /** A row is refused exactly when the table with it would break a key. */
  lemma InsertExact(t: seq<Apiary>, row: Apiary)
    requires Valid(t)
    ensures var w := Insert(t, row);
            && Valid(w.table)
            && (w.error.None? <==> Valid(t + [row]))
            && (w.error == Some(NameTaken) <==> DistinctIds(t + [row]) && !UniqueLiveNames(t + [row]))
            && (w.error == Some(Upstream) <==> !DistinctIds(t + [row]))
  {
    ValidInsert(t, row);
    var r := t + [row];
    assert r[|t|] == row && forall i :: 0 <= i < |t| ==> r[i] == t[i];
    if a :| a in t && a.id == row.id {
      var i :| 0 <= i < |t| && t[i] == a;
      assert r[i].id == r[|t|].id;
    } else if row.Live() && NameHeld(t, row.userId, row.name, row.id) {
      var a :| a in t && a.userId == row.userId && a.Live() && a.name == row.name && a.id != row.id;
      var i :| 0 <= i < |t| && t[i] == a;
      assert r[i].name == r[|t|].name;
    }
  }

  /** The row whose fields an update may replace, if there is one. */
  ghost predicate Editable(t: seq<Apiary>, user: Id, id: Id) {
    exists r :: r in t && LiveRow(user, id)(r)
  }

  lemma NameClashBreaksKey(t: seq<Apiary>, a: Apiary)
    requires DistinctIds(t) && Editable(t, a.userId, a.id) && NameHeld(t, a.userId, a.name, a.id)
    ensures !UniqueLiveNames(Rewrite(t, a))
  {
    var r, held := Rewrite(t, a), (b: Apiary) => b.userId == a.userId && b.Live() && b.name == a.name && b.id != a.id;
    var i :| 0 <= i < |t| && LiveRow(a.userId, a.id)(t[i]);
    var b :| b in t && held(b);
    var j :| 0 <= j < |t| && t[j] == b;
    assert r[i].name == a.name && r[j] == b;
    if i < j {
      assert r[i].name == r[j].name;
    } else {
      assert r[j].name == r[i].name;
    }
  }

  /** An update finds its live row or is refused, and is refused its name exactly when the
      rewritten table would break the name index; no other row changes. */
  lemma UpdateExact(t: seq<Apiary>, a: Apiary)
    requires Valid(t)
    ensures var w := Update(t, a);
            && Valid(w.table)
            && (w.error == Some(NotFound) <==> !Editable(t, a.userId, a.id))
            && (w.error == Some(NameTaken) <==> Editable(t, a.userId, a.id) && !Valid(Rewrite(t, a)))
            && (w.error.None? <==> Editable(t, a.userId, a.id) && Valid(Rewrite(t, a)))
  {
    ValidUpdate(t, a);
    var hits := Filter(t, LiveRow(a.userId, a.id));
    if r :| r in t && LiveRow(a.userId, a.id)(r) {
      assert r in hits;
    }
    if hits != [] {
      assert hits[0] in hits;
      if NameHeld(t, a.userId, a.name, a.id) {
        NameClashBreaksKey(t, a);
      }
    }
  }

  lemma {:induction false} FilterWhole(t: seq<Apiary>, p: Apiary -> bool)
    requires |Filter(t, p)| == |t|
    ensures Filter(t, p) == t
  {
    if t != [] {
      FilterWhole(t[..|t| - 1], p);
      assert t == t[..|t| - 1] + [t[|t| - 1]];
    }
  }

  /** One row at most leaves a table with unique ids, and the reported error tells whether. */
  lemma {:induction false} DropsOne(t: seq<Apiary>, user: Id, id: Id)
    requires DistinctIds(t)
    ensures |t| - |Filter(t, OtherThan(user, id))| == if exists r :: r in t && !OtherThan(user, id)(r) then 1 else 0
  {
    if t != [] {
      var front, last := t[..|t| - 1], t[|t| - 1];
      assert t == front + [last];
      DropsOne(front, user, id);
      assert last in t;
      if !OtherThan(user, id)(last) {
        forall r | r in front ensures OtherThan(user, id)(r) {
          var i :| 0 <= i < |front| && front[i] == r;
          assert t[i].id != t[|t| - 1].id;
        }
      }
    }
  }

  /** A hard delete takes at most its one row, soft-deleted or not, and reports NotFound exactly
      when there was none; done again it finds nothing. */
  lemma HardDeleteExact(t: seq<Apiary>, user: Id, id: Id)
    requires Valid(t)
    ensures var w, found := HardDelete(t, user, id), exists r :: r in t && r.userId == user && r.id == id;
            && Valid(w.table)
            && |w.table| == |t| - (if found then 1 else 0)
            && w.error == (if found then None else Some(NotFound))
            && HardDelete(w.table, user, id) == Written(w.table, Some(NotFound))
  {
    var rest := HardDelete(t, user, id).table;
    ValidFilter(t, OtherThan(user, id));
    DropsOne(t, user, id);
    assert (exists r :: r in t && !OtherThan(user, id)(r)) <==> (exists r :: r in t && r.userId == user && r.id == id);
    FilterAll(rest, OtherThan(user, id));
  }

  /** The sweep leaves every other user's rows, in their order, and none of the user's; done
      again it changes nothing. */
  lemma SweepExact(t: seq<Apiary>, user: Id)
    ensures var rest := DeleteAllByUserHard(t, user);
            && (Valid(t) ==> Valid(rest))
            && Filter(rest, OwnedBy(user)) == []
            && (forall other :: other != user ==> Filter(rest, OwnedBy(other)) == Filter(t, OwnedBy(other)))
            && DeleteAllByUserHard(rest, user) == rest
  {
    var rest := DeleteAllByUserHard(t, user);
    if Valid(t) {
      ValidFilter(t, NotOwnedBy(user));
    }
    NoneMatch(rest, OwnedBy(user));
    FilterAll(rest, NotOwnedBy(user));
    forall other | other != user ensures Filter(rest, OwnedBy(other)) == Filter(t, OwnedBy(other)) {
      FilterFilter(t, NotOwnedBy(user), OwnedBy(other), OwnedBy(other));
    }
  }

  /** Rewriting keeps every row's key, owner and age, so it commutes with sorting. */
  lemma {:induction false} RewriteSort(d: Direction, t: seq<Apiary>, a: Apiary)
    ensures Sort(d, Rewrite(t, a)) == Rewrite(Sort(d, t), a)
  {
    if t != [] {
      var front, last := t[..|t| - 1], t[|t| - 1];
      RewriteSort(d, front, a);
      assert Rewrite(t, a)[..|t| - 1] == Rewrite(front, a);
      RewriteInsert(d, last, Sort(d, front), a);
    }
  }

  lemma {:induction false} RewriteInsert(d: Direction, x: Apiary, s: seq<Apiary>, a: Apiary)
    ensures InsertSorted(d, RewriteOne(x, a), Rewrite(s, a)) == Rewrite(InsertSorted(d, x, s), a)
  {
    if s != [] && !InOrder(d, x, s[0]) {
      RewriteInsert(d, x, s[1..], a);
      assert Rewrite(s, a)[1..] == Rewrite(s[1..], a);
    }
  }

  lemma GetByIDProps(t: seq<Apiary>, user: Id, id: Id)
    requires DistinctIds(t)
    ensures GetByID(t, user, id).Ok? ==> GetByID(t, user, id).value in t && LiveRow(user, id)(GetByID(t, user, id).value)
    ensures forall a :: a in t && LiveRow(user, id)(a) ==> GetByID(t, user, id) == Ok(a)
  {
    var hits := Filter(t, LiveRow(user, id));
    if hits != [] {
      assert hits[0] in hits;
    }
    forall a | a in t && LiveRow(user, id)(a) ensures GetByID(t, user, id) == Ok(a) {
      assert a in hits;
      SameId(t, a, hits[0]);
    }
  }
}
