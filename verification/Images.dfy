/** Attached media ids: deduplication, and media-service's ownership check by counting. */
module Images {
  import opened Seqs
  import opened Domain

  /** The ids of `ids` without repeats, each where it first appears. */
  function Dedupe(ids: seq<Id>): seq<Id> {
    if ids == [] then []
    else
      var front, last := Dedupe(ids[..|ids| - 1]), ids[|ids| - 1];
      if last in front then front else front + [last]
  }

  function FirstIndex(ids: seq<Id>, id: Id): (i: nat)
    requires id in ids
    ensures i < |ids| && ids[i] == id && id !in ids[..i]
  {
    if ids[0] == id then 0
    else
      assert ids == [ids[0]] + ids[1..];
      var i := FirstIndex(ids[1..], id);
      assert ids[..i + 1] == [ids[0]] + ids[1..][..i];
      i + 1
  }

  /** What deduplication promises, without saying how it is done. */
  ghost predicate Deduplicates(ids: seq<Id>, r: seq<Id>) {
    && Elems(r) == Elems(ids)
    && (forall id :: id in r ==> id in ids)
    && forall i, j :: 0 <= i < j < |r| ==> FirstIndex(ids, r[i]) < FirstIndex(ids, r[j])
  }

  method DedupeImages(ids: seq<Id>) returns (dedup: seq<Id>)
    ensures dedup == Dedupe(ids)
    ensures Deduplicates(ids, dedup) && NoDup(dedup)
  {
    var seen: map<Id, bool> := map[];
    dedup := [];
    for k := 0 to |ids|
      invariant dedup == Dedupe(ids[..k])
      invariant forall id :: id in seen && seen[id] <==> id in dedup
    {
      assert ids[..k + 1][..k] == ids[..k];
      if ids[k] in seen && seen[ids[k]] {
        continue;
      }
      seen := seen[ids[k] := true];
      dedup := dedup + [ids[k]];
    }
    assert ids[..|ids|] == ids;
    DedupeProps(ids);
  }

  lemma InPrefix(s: seq<Id>, i: nat, j: nat)
    requires i < |s| && j <= |s|
    ensures i < j ==> s[i] in s[..j]
  {
    if i < j {
      assert s[..j][i] == s[i];
    }
  }

  lemma FirstIndexUnique(ids: seq<Id>, id: Id, i: nat)
    requires i < |ids| && ids[i] == id && id !in ids[..i]
    ensures FirstIndex(ids, id) == i
  {
    var j := FirstIndex(ids, id);
    InPrefix(ids, i, j);
    InPrefix(ids, j, i);
  }

  lemma FirstIndexFront(ids: seq<Id>, id: Id)
    requires ids != [] && id in ids[..|ids| - 1]
    ensures FirstIndex(ids, id) == FirstIndex(ids[..|ids| - 1], id)
  {
    var front := ids[..|ids| - 1];
    var i := FirstIndex(front, id);
    assert ids[..i] == front[..i];
    FirstIndexUnique(ids, id, i);
  }

  lemma ElemsSnoc(s: seq<Id>, x: Id)
    ensures Elems(s + [x]) == Elems(s) + {x}
  {
  }

  lemma {:induction false} DedupeProps(ids: seq<Id>)
    ensures Deduplicates(ids, Dedupe(ids)) && NoDup(Dedupe(ids))
  {
    if ids != [] {
      var front, last := ids[..|ids| - 1], ids[|ids| - 1];
      DedupeProps(front);
      var d, r := Dedupe(front), Dedupe(ids);
      assert ids == front + [last];
      forall id | id in d ensures id in front && FirstIndex(ids, id) == FirstIndex(front, id) {
        FirstIndexFront(ids, id);
      }
      ElemsSnoc(front, last);
      if last !in d {
        assert last !in Elems(front);
        ElemsSnoc(d, last);
        FirstIndexUnique(ids, last, |front|);
      } else {
        assert last in Elems(d);
      }
    }
  }

  lemma SomeMember(s: seq<Id>)
    ensures s != [] ==> exists id :: id in s
  {
    if s != [] {
      assert s[0] in s;
    }
  }

  lemma HeadOrTail(s: seq<Id>)
    requires s != []
    ensures s == [s[0]] + s[1..]
    ensures forall id :: id in s <==> id == s[0] || id in s[1..]
  {
    assert s == [s[0]] + s[1..];
  }

  lemma IncreasingTail(ids: seq<Id>, s: seq<Id>)
    requires s != [] && forall id :: id in s ==> id in ids
    requires forall i, j :: 0 <= i < j < |s| ==> FirstIndex(ids, s[i]) < FirstIndex(ids, s[j])
    ensures s[0] !in s[1..]
    ensures forall id :: id in s[1..] ==> id in ids
    ensures forall i, j :: 0 <= i < j < |s[1..]| ==> FirstIndex(ids, s[1..][i]) < FirstIndex(ids, s[1..][j])
  {
    HeadOrTail(s);
  }

  lemma {:induction false} IncreasingAgree(ids: seq<Id>, r: seq<Id>, d: seq<Id>)
    requires forall id :: id in r <==> id in d
    requires forall id :: id in r || id in d ==> id in ids
    requires forall i, j :: 0 <= i < j < |r| ==> FirstIndex(ids, r[i]) < FirstIndex(ids, r[j])
    requires forall i, j :: 0 <= i < j < |d| ==> FirstIndex(ids, d[i]) < FirstIndex(ids, d[j])
    ensures r == d
  {
    SomeMember(d);
    if r != [] {
      assert r[0] in d;
      var i :| 0 <= i < |d| && d[i] == r[0];
      assert d[0] in r;
      var j :| 0 <= j < |r| && r[j] == d[0];
      assert r[0] == d[0];
      HeadOrTail(r);
      HeadOrTail(d);
      IncreasingTail(ids, r);
      IncreasingTail(ids, d);
      IncreasingAgree(ids, r[1..], d[1..]);
    }
  }

  /** The promise determines the result. */
  lemma DedupeUnique(ids: seq<Id>, r: seq<Id>)
    requires Deduplicates(ids, r)
    ensures r == Dedupe(ids)
  {
    DedupeProps(ids);
    forall id ensures id in r <==> id in Dedupe(ids) {
      assert id in r <==> id in Elems(r);
      assert id in Dedupe(ids) <==> id in Elems(Dedupe(ids));
    }
    IncreasingAgree(ids, r, Dedupe(ids));
  }

  lemma {:induction false} NoDupDedupe(ids: seq<Id>)
    requires NoDup(ids)
    ensures Dedupe(ids) == ids
  {
    if ids != [] {
      var front := ids[..|ids| - 1];
      NoDupDedupe(front);
      assert ids == front + [ids[|ids| - 1]];
      assert forall i :: 0 <= i < |front| ==> front[i] == ids[i];
    }
  }

  lemma {:induction false} DedupeIdempotent(ids: seq<Id>)
    ensures Dedupe(Dedupe(ids)) == Dedupe(ids)
  {
    DedupeProps(ids);
    NoDupDedupe(Dedupe(ids));
  }

  function NotIn(ids: seq<Id>): Id -> bool {
    (id: Id) => id !in ids
  }

  lemma {:induction false} DedupeMembers(ids: seq<Id>)
    ensures forall id :: id in Dedupe(ids) <==> id in ids
  {
    DedupeProps(ids);
    assert forall id :: id in ids <==> id in Elems(ids);
    assert forall id :: id in Dedupe(ids) <==> id in Elems(Dedupe(ids));
  }

  /** Appending requests: what was asked first keeps its place, the rest follows. */
  lemma {:induction false} DedupeConcat(a: seq<Id>, b: seq<Id>)
    ensures Dedupe(a + b) == Dedupe(a) + Filter(Dedupe(b), NotIn(a))
  {
    if b == [] {
      assert a + b == a;
    } else {
      var front, last := b[..|b| - 1], b[|b| - 1];
      var d, kept := Dedupe(front), Filter(Dedupe(front), NotIn(a));
      DedupeConcat(a, front);
      ConcatAssociates(a, front, [last]);
      assert b == front + [last] && (a + b)[..|a + b| - 1] == a + front;
      DedupeMembers(a);
      DedupeMembers(front);
      DedupeMembers(a + front);
      FilterSnoc(d, last, NotIn(a));
      ConcatAssociates(Dedupe(a), kept, [last]);
    }
  }

  // ---- ownership by counting ----

  /** How media-service answers a lookup: each requested id the caller owns once, the others
      left out silently. */
  ghost predicate Answers(ids: seq<Id>, owned: set<Id>, items: seq<Id>) {
    NoDup(items) && Elems(items) == Elems(ids) * owned
  }

  /** The decision VerifyOwnership takes from the answer's length alone. */
  function OwnershipError(ids: seq<Id>, items: seq<Id>): Option<Error> {
    if |items| != |ids| then Some(ImageNotFound) else None
  }

  /** Counting accepts exactly the requests without repeats whose ids are all owned. */
  lemma CountingIsExact(ids: seq<Id>, owned: set<Id>, items: seq<Id>)
    requires Answers(ids, owned, items)
    ensures OwnershipError(ids, items).None? <==> NoDup(ids) && Elems(ids) <= owned
  {
    DistinctCount(ids);
    DistinctCount(items);
    SubsetSize(Elems(ids) * owned, Elems(ids));
    assert Elems(ids) * owned == Elems(ids) <==> Elems(ids) <= owned;
  }

  /** After deduplication, the submitted ids are accepted exactly when each one is owned. */
  lemma DedupedCountingIsExact(ids: seq<Id>, owned: set<Id>, items: seq<Id>)
    requires Answers(Dedupe(ids), owned, items)
    ensures OwnershipError(Dedupe(ids), items).None? <==> forall id :: id in ids ==> id in owned
  {
    DedupeProps(ids);
    CountingIsExact(Dedupe(ids), owned, items);
    assert forall id :: id in ids <==> id in Elems(ids);
  }
}
