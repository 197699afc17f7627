/** Which apiaries a Free user may edit: the oldest few live rows, derived on every call. */
module Writability {
  import opened Seqs
  import opened Domain
  import opened Ordering
  import opened Table

  /** The user's live rows, oldest first. */
  function Live(t: seq<Apiary>, user: Id): (r: seq<Apiary>)
    ensures |r| == Count(t, user)
  {
    SortProps(Asc, Filter(t, LiveOf(user)));
    Sort(Asc, Filter(t, LiveOf(user)))
  }

  function Ids(s: seq<Apiary>): seq<Id> {
    seq(|s|, i requires 0 <= i < |s| => s[i].id)
  }

  /** SELECT id ... ORDER BY created_at, id [LIMIT]; no limit when it is not positive. */
  function WritableIDs(t: seq<Apiary>, user: Id, limit: int): seq<Id> {
    var all := Ids(Live(t, user));
    if limit > 0 then all[..Min(limit, |all|)] else all
  }

  function OlderLive(user: Id, a: Apiary): Apiary -> bool {
    (b: Apiary) => b.userId == user && b.Live() && Before(b, a)
  }

  function OlderThan(a: Apiary): Apiary -> bool {
    (b: Apiary) => Before(b, a)
  }

  /** How many live rows of the user are strictly older than `a`. */
  function Rank(t: seq<Apiary>, user: Id, a: Apiary): nat {
    |Filter(t, OlderLive(user, a))|
  }

  lemma LiveProps(t: seq<Apiary>, user: Id)
    requires DistinctIds(t)
    ensures Sorted(Asc, Live(t, user)) && DistinctIds(Live(t, user))
    ensures forall a :: a in Live(t, user) <==> a in t && LiveOf(user)(a)
  {
    var f := Filter(t, LiveOf(user));
    SortProps(Asc, f);
    DistinctIdsFilter(t, LiveOf(user));
    DistinctIdsSort(Asc, f);
  }

  lemma OlderPrefix(s: seq<Apiary>, k: nat)
    requires Sorted(Asc, s) && DistinctIds(s) && k < |s|
    ensures Filter(s, OlderThan(s[k])) == s[..k]
  {
    var p := OlderThan(s[k]);
    assert s == s[..k] + s[k..];
    FilterConcat(s[..k], s[k..], p);
    FilterAll(s[..k], p);
    NoneMatch(s[k..], p);
  }

  lemma RankInOrder(t: seq<Apiary>, user: Id, a: Apiary)
    ensures Rank(t, user, a) == |Filter(Live(t, user), OlderThan(a))|
  {
    var f := Filter(t, LiveOf(user));
    FilterFilter(t, LiveOf(user), OlderThan(a), OlderLive(user, a));
    SortFilter(Asc, f, OlderThan(a));
    SortProps(Asc, Filter(f, OlderThan(a)));
  }

  /** The k-th row of the oldest-first listing is the one with k older rows. */
  lemma PositionIsRank(t: seq<Apiary>, user: Id, k: nat)
    requires DistinctIds(t) && k < |Live(t, user)|
    ensures Rank(t, user, Live(t, user)[k]) == k
  {
    LiveProps(t, user);
    RankInOrder(t, user, Live(t, user)[k]);
    OlderPrefix(Live(t, user), k);
  }

  /** The writable ids come oldest first: the k-th has k older live rows. */
  lemma WritableOldestFirst(t: seq<Apiary>, user: Id, limit: int, k: nat)
    requires DistinctIds(t) && k < |WritableIDs(t, user, limit)|
    ensures exists a :: a in t && LiveRow(user, WritableIDs(t, user, limit)[k])(a) && Rank(t, user, a) == k
  {
    LiveProps(t, user);
    PositionIsRank(t, user, k);
    assert Live(t, user)[k] in Live(t, user);
  }

  lemma LowRankIsWritable(t: seq<Apiary>, user: Id, a: Apiary, limit: int)
    requires DistinctIds(t) && a in t && LiveOf(user)(a) && (limit > 0 ==> Rank(t, user, a) < limit)
    ensures a.id in WritableIDs(t, user, limit)
  {
    LiveProps(t, user);
    var l := Live(t, user);
    assert a in l;
    var k :| 0 <= k < |l| && l[k] == a;
    PositionIsRank(t, user, k);
    assert WritableIDs(t, user, limit)[k] == a.id;
  }

  /** Membership in the writable set, said without sorting: fewer than `limit` older rows, or
      any live row when there is no limit. */
  lemma WritableIffRank(t: seq<Apiary>, user: Id, id: Id, limit: int)
    requires DistinctIds(t)
    ensures id in WritableIDs(t, user, limit)
       <==> exists a :: a in t && LiveRow(user, id)(a) && (limit > 0 ==> Rank(t, user, a) < limit)
  {
    var w := WritableIDs(t, user, limit);
    if id in w {
      var k :| 0 <= k < |w| && w[k] == id;
      WritableOldestFirst(t, user, limit, k);
    }
    if a :| a in t && LiveRow(user, id)(a) && (limit > 0 ==> Rank(t, user, a) < limit) {
      LowRankIsWritable(t, user, a, limit);
    }
  }

  lemma WritableCount(t: seq<Apiary>, user: Id, limit: int)
    requires DistinctIds(t)
    ensures NoDup(WritableIDs(t, user, limit))
    ensures |Elems(WritableIDs(t, user, limit))|
         == if limit > 0 then Min(limit, Count(t, user)) else Count(t, user)
  {
    LiveProps(t, user);
    DistinctCount(WritableIDs(t, user, limit));
  }

  // ---- what each write does to the oldest-first listing ----

  lemma LiveAfterDelete(t: seq<Apiary>, user: Id, id: Id, k: nat)
    requires DistinctIds(t) && k < |Live(t, user)| && Live(t, user)[k].id == id
    ensures Live(HardDelete(t, user, id).table, user) == Live(t, user)[..k] + Live(t, user)[k + 1..]
  {
    LiveProps(t, user);
    LiveFiltered(t, user, OtherThan(user, id));
    var l, p := Live(t, user), OtherThan(user, id);
    forall a | a in l ensures a.userId == user {}
    assert l == l[..k] + [l[k]] + l[k + 1..];
    FilterConcat(l[..k] + [l[k]], l[k + 1..], p);
    FilterSnoc(l[..k], l[k], p);
    forall a | a in l[..k] ensures p(a) {}
    forall a | a in l[k + 1..] ensures p(a) {}
    FilterAll(l[..k], p);
    FilterAll(l[k + 1..], p);
    assert l[k] in l;
  }

  lemma LiveFiltered(t: seq<Apiary>, user: Id, p: Apiary -> bool)
    ensures Live(Filter(t, p), user) == Filter(Live(t, user), p)
  {
    var both := (a: Apiary) => LiveOf(user)(a) && p(a);
    FilterFilter(t, p, LiveOf(user), both);
    FilterFilter(t, LiveOf(user), p, both);
    SortFilter(Asc, Filter(t, LiveOf(user)), p);
  }

  lemma LiveAfterInsert(t: seq<Apiary>, row: Apiary)
    requires row.Live()
    ensures Live(t + [row], row.userId) == InsertSorted(Asc, row, Live(t, row.userId))
  {
    var f := Filter(t, LiveOf(row.userId));
    FilterSnoc(t, row, LiveOf(row.userId));
    assert (f + [row])[..|f|] == f;
  }

  lemma NoneOlder(row: Apiary, s: seq<Apiary>)
    requires Sorted(Asc, s) && s != [] && Leq(row, s[0]) && forall a :: a in s ==> a.id != row.id
    ensures Filter(s, OlderThan(row)) == []
  {
    forall a | a in s ensures !OlderThan(row)(a) {
      SortedHead(Asc, s, a);
    }
    NoneMatch(s, OlderThan(row));
  }

  lemma SplitCons(head: Apiary, tail: seq<Apiary>, row: Apiary, j: nat)
    requires j <= |tail|
    ensures [head] + (tail[..j] + [row] + tail[j..])
         == ([head] + tail)[..j + 1] + [row] + ([head] + tail)[j + 1..]
  {
  }

  lemma InsertIntoNone(row: Apiary, s: seq<Apiary>)
    requires |s| == 0
    ensures InsertSorted(Asc, row, s) == [row]
  {
  }

  lemma IdsOfOne(row: Apiary)
    ensures Ids([row]) == [row.id]
  {
  }

  /** The first row of a user is the whole writable set. */
  lemma OnlyRowWritable(t: seq<Apiary>, row: Apiary, limit: int)
    requires row.Live() && Count(t, row.userId) == 0 && limit > 0
    ensures WritableIDs(t + [row], row.userId, limit) == [row.id]
  {
    LiveAfterInsert(t, row);
    InsertIntoNone(row, Live(t, row.userId));
    IdsOfOne(row);
    var all := Ids(Live(t + [row], row.userId));
    assert all == [row.id];
    assert Min(limit, |all|) == 1 && all[..1] == all;
  }

  lemma SplitAtFront(row: Apiary, s: seq<Apiary>)
    ensures s[..0] + [row] + s[0..] == [row] + s
  {
  }

  lemma HeadAndTail(s: seq<Apiary>)
    requires s != []
    ensures [s[0]] + s[1..] == s && s[0] in s
    ensures forall a :: a in s[1..] ==> a in s
  {
  }

  /** Inserting into a sorted list splits it at the number of strictly older rows. */
  lemma {:induction false} InsertAtRank(row: Apiary, s: seq<Apiary>)
    requires Sorted(Asc, s) && forall a :: a in s ==> a.id != row.id
    ensures var j := |Filter(s, OlderThan(row))|;
            InsertSorted(Asc, row, s) == s[..j] + [row] + s[j..]
  {
    if s == [] {
    } else if Leq(row, s[0]) {
      NoneOlder(row, s);
      SplitAtFront(row, s);
    } else {
      HeadAndTail(s);
      FilterCons(s[0], s[1..], OlderThan(row));
      InsertAtRank(row, s[1..]);
      SplitCons(s[0], s[1..], row, |Filter(s[1..], OlderThan(row))|);
    }
  }

  // ---- promotion and demotion ----

  /** The first `limit` ids of a listing. */
  function Top(l: seq<Apiary>, limit: nat): seq<Id> {
    Ids(l)[..Min(limit, |l|)]
  }

  lemma TopWithout(l: seq<Apiary>, k: nat, limit: nat)
    requires k < |l| && k < limit
    ensures Top(l[..k] + l[k + 1..], limit)
         == Top(l, limit)[..k] + Top(l, limit)[k + 1..] + (if limit < |l| then [l[limit].id] else [])
  {
    var r, w := l[..k] + l[k + 1..], Top(l, limit);
    forall i | 0 <= i < |r|
      ensures Ids(r)[i] == if i < k then l[i].id else l[i + 1].id
    {
    }
    var last := if limit < |l| then [l[limit].id] else [];
    var full := w[..k] + w[k + 1..] + last;
    assert |Top(r, limit)| == |full|;
    forall i | 0 <= i < |full| ensures Top(r, limit)[i] == full[i] {
      assert i < k ==> full[i] == w[i];
      assert k <= i < |w| - 1 ==> full[i] == w[i + 1];
    }
    assert Top(r, limit) == full;
  }

  lemma DistinctTop(l: seq<Apiary>, limit: nat)
    requires DistinctIds(l)
    ensures NoDup(Top(l, limit))
    ensures limit < |l| ==> l[limit].id !in Top(l, limit)
  {
  }

  lemma TopHas(l: seq<Apiary>, k: nat, limit: nat)
    requires k < |l|
    ensures k < limit ==> l[k].id in Top(l, limit)
  {
    if k < limit {
      assert Top(l, limit)[k] == l[k].id;
    }
  }

  lemma RemoveOne(w: seq<Id>, k: nat)
    requires NoDup(w) && k < |w|
    ensures Elems(w[..k] + w[k + 1..]) == Elems(w) - {w[k]}
  {
    assert w == w[..k] + [w[k]] + w[k + 1..];
  }

  lemma ElemsConcat(a: seq<Id>, b: seq<Id>)
    ensures Elems(a + b) == Elems(a) + Elems(b)
  {
  }

  /** Deleting a writable row promotes exactly the next live row, if there is one. */
  lemma DeletePromotesNext(t: seq<Apiary>, user: Id, id: Id, limit: int)
    requires DistinctIds(t) && limit > 0 && id in WritableIDs(t, user, limit)
    ensures var promoted := if Count(t, user) > limit then [Live(t, user)[limit].id] else [];
            && Elems(WritableIDs(HardDelete(t, user, id).table, user, limit))
               == Elems(WritableIDs(t, user, limit)) - {id} + Elems(promoted)
            && forall x :: x in promoted ==> x !in WritableIDs(t, user, limit)
  {
    LiveProps(t, user);
    var l, w := Live(t, user), WritableIDs(t, user, limit);
    var k :| 0 <= k < |w| && w[k] == id;
    LiveAfterDelete(t, user, id, k);
    TopWithout(l, k, limit);
    DistinctTop(l, limit);
    RemoveOne(w, k);
    ElemsConcat(w[..k] + w[k + 1..], if limit < |l| then [l[limit].id] else []);
  }

  /** Deleting any other row leaves the writable set as it was. */
  lemma DeleteOthersKeeps(t: seq<Apiary>, user: Id, id: Id, limit: int)
    requires DistinctIds(t) && limit > 0 && id !in WritableIDs(t, user, limit)
    ensures WritableIDs(HardDelete(t, user, id).table, user, limit) == WritableIDs(t, user, limit)
  {
    LiveProps(t, user);
    var l, w := Live(t, user), WritableIDs(t, user, limit);
    if k :| 0 <= k < |l| && l[k].id == id {
      TopHas(l, k, limit);
      LiveAfterDelete(t, user, id, k);
    } else {
      LiveFiltered(t, user, OtherThan(user, id));
      FilterAll(l, OtherThan(user, id));
    }
  }

  lemma IdsConcat(a: seq<Apiary>, b: seq<Apiary>)
    ensures Ids(a + b) == Ids(a) + Ids(b)
  {
  }

  lemma IdsSlice(s: seq<Apiary>, from: nat, to: nat)
    requires from <= to <= |s|
    ensures Ids(s[from..to]) == Ids(s)[from..to]
  {
  }

  lemma IdsInserted(l: seq<Apiary>, row: Apiary, j: nat)
    requires j <= |l|
    ensures Ids(l[..j] + [row] + l[j..]) == Ids(l)[..j] + [row.id] + Ids(l)[j..]
  {
    IdsConcat(l[..j] + [row], l[j..]);
    IdsConcat(l[..j], [row]);
    IdsOfOne(row);
    IdsSlice(l, 0, j);
    IdsSlice(l, j, |l|);
  }

  /** The first `limit` of a list with one more entry. */
  lemma TakeInserted(w: seq<Id>, x: Id, j: nat, limit: nat)
    requires j <= |w| && limit <= |w| + 1
    ensures (w[..j] + [x] + w[j..])[..limit]
         == if limit <= j then w[..limit] else w[..j] + [x] + w[j..limit - 1]
  {
  }

  lemma TakeTwice(w: seq<Id>, from: nat, to: nat, limit: nat)
    requires from <= to <= limit <= |w|
    ensures w[..limit][from..to] == w[from..to]
  {
  }

  lemma TopWith(l: seq<Apiary>, row: Apiary, j: nat, limit: nat)
    requires j <= |l|
    ensures Top(l[..j] + [row] + l[j..], limit)
         == if limit <= j then Top(l, limit)
            else if limit <= |l| then Top(l, limit)[..j] + [row.id] + Top(l, limit)[j..limit - 1]
            else Top(l, limit)[..j] + [row.id] + Top(l, limit)[j..]
  {
    var w := Ids(l);
    var n := Min(limit, |w| + 1);
    IdsInserted(l, row, j);
    TakeInserted(w, row.id, j, n);
    if limit <= j {
    } else if limit <= |l| {
      TakeTwice(w, 0, j, limit);
      TakeTwice(w, j, limit - 1, limit);
    } else {
      assert w[..|w|] == w;
    }
  }

  lemma ElemsInserted(w: seq<Id>, j: nat, x: Id)
    requires j <= |w|
    ensures Elems(w[..j] + [x] + w[j..]) == Elems(w) + {x}
  {
    assert w == w[..j] + w[j..];
  }

  /** A new id in a full list pushes out the last one. */
  lemma ElemsPushed(w: seq<Id>, j: nat, x: Id)
    requires NoDup(w) && j < |w|
    ensures Elems(w[..j] + [x] + w[j..|w| - 1]) == Elems(w) - {w[|w| - 1]} + {x}
  {
    var kept := w[..|w| - 1];
    assert w == kept + [w[|w| - 1]];
    assert Elems(kept) == Elems(w) - {w[|w| - 1]};
    ElemsInserted(kept, j, x);
    assert kept[..j] == w[..j] && kept[j..] == w[j..|w| - 1];
  }

  lemma TopFull(l: seq<Apiary>, row: Apiary, j: nat, limit: nat)
    requires DistinctIds(l) && j < limit <= |l|
    ensures Elems(Top(l[..j] + [row] + l[j..], limit)) == Elems(Top(l, limit)) - {l[limit - 1].id} + {row.id}
  {
    var w := Top(l, limit);
    TopWith(l, row, j, limit);
    DistinctTop(l, limit);
    ElemsPushed(w, j, row.id);
    assert |w| == limit && w[|w| - 1] == l[limit - 1].id;
  }

  lemma TopAfterInsert(l: seq<Apiary>, row: Apiary, j: nat, limit: nat)
    requires DistinctIds(l) && j <= |l| && limit > 0
    ensures var demoted := if limit <= |l| then {l[limit - 1].id} else {};
            Elems(Top(l[..j] + [row] + l[j..], limit))
            == if j < limit then Elems(Top(l, limit)) - demoted + {row.id} else Elems(Top(l, limit))
  {
    if limit <= j {
      TopWith(l, row, j, limit);
    } else if limit <= |l| {
      TopFull(l, row, j, limit);
    } else {
      TopWith(l, row, j, limit);
      ElemsInserted(Top(l, limit), j, row.id);
      assert Elems(Top(l, limit)) - {} == Elems(Top(l, limit));
    }
  }

  /** A new row enters the writable set exactly when its rank allows, and then demotes the
      last writable row when the set was full. */
  lemma InsertDemotesAtMostOne(t: seq<Apiary>, row: Apiary, limit: int)
    requires DistinctIds(t) && limit > 0 && row.Live() && !HasId(t, row.id)
    ensures var demoted := if limit <= Count(t, row.userId) then {Live(t, row.userId)[limit - 1].id} else {};
            var before := Elems(WritableIDs(t, row.userId, limit));
            Elems(WritableIDs(t + [row], row.userId, limit))
            == if Rank(t, row.userId, row) < limit then before - demoted + {row.id} else before
  {
    LiveProps(t, row.userId);
    LiveAfterInsert(t, row);
    InsertAtRank(row, Live(t, row.userId));
    RankInOrder(t, row.userId, row);
    TopAfterInsert(Live(t, row.userId), row, Rank(t, row.userId, row), limit);
  }

  /** An update never changes who is writable, whatever fields it replaces. */
  lemma UpdateKeepsWritable(t: seq<Apiary>, a: Apiary, user: Id, limit: int)
    ensures WritableIDs(Update(t, a).table, user, limit) == WritableIDs(t, user, limit)
  {
    if Update(t, a).error.None? {
      RewriteFilter(t, a, LiveOf(user));
      RewriteSort(Asc, Filter(t, LiveOf(user)), a);
      RewriteIds(Live(t, user), a);
    }
  }

  lemma RewriteIds(s: seq<Apiary>, a: Apiary)
    ensures Ids(Rewrite(s, a)) == Ids(s)
  {
  }
}
