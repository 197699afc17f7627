/** ORDER BY created_at, id: the total order every listing uses, and sorting by it. */
module Ordering {
  import opened Seqs
  import opened Domain

  datatype Direction = Asc | Desc

  predicate Leq(a: Apiary, b: Apiary) {
    a.createdAt < b.createdAt || (a.createdAt == b.createdAt && a.id <= b.id)
  }

  /** Strictly before: what "older" means for the Free-plan selection. */
  predicate Before(a: Apiary, b: Apiary) {
    a.createdAt < b.createdAt || (a.createdAt == b.createdAt && a.id < b.id)
  }

  predicate InOrder(d: Direction, a: Apiary, b: Apiary) {
    if d.Asc? then Leq(a, b) else Leq(b, a)
  }

  ghost predicate Sorted(d: Direction, s: seq<Apiary>) {
    forall i, j :: 0 <= i < j < |s| ==> InOrder(d, s[i], s[j])
  }

  ghost predicate DistinctIds(s: seq<Apiary>) {
    forall i, j :: 0 <= i < j < |s| ==> s[i].id != s[j].id
  }

  function InsertSorted(d: Direction, a: Apiary, s: seq<Apiary>): seq<Apiary> {
    if s == [] then [a]
    else if InOrder(d, a, s[0]) then [a] + s
    else [s[0]] + InsertSorted(d, a, s[1..])
  }

  function Sort(d: Direction, s: seq<Apiary>): seq<Apiary> {
    if s == [] then [] else InsertSorted(d, s[|s| - 1], Sort(d, s[..|s| - 1]))
  }

  lemma {:induction false} InsertSortedMembers(d: Direction, a: Apiary, s: seq<Apiary>)
    ensures multiset(InsertSorted(d, a, s)) == multiset(s) + multiset{a}
    ensures forall b :: b in InsertSorted(d, a, s) <==> b == a || b in s
  {
    if s != [] && !InOrder(d, a, s[0]) {
      InsertSortedMembers(d, a, s[1..]);
      assert s == [s[0]] + s[1..];
    }
  }

  lemma SortedCons(d: Direction, head: Apiary, tail: seq<Apiary>)
    requires Sorted(d, tail) && forall b :: b in tail ==> InOrder(d, head, b)
    ensures Sorted(d, [head] + tail)
  {
  }

  lemma {:induction false} InsertSortedProps(d: Direction, a: Apiary, s: seq<Apiary>)
    requires Sorted(d, s)
    ensures Sorted(d, InsertSorted(d, a, s))
  {
    if s == [] {
    } else if InOrder(d, a, s[0]) {
      SortedFrom(d, a, s);
      SortedCons(d, a, s);
    } else {
      InsertSortedProps(d, a, s[1..]);
      InsertSortedMembers(d, a, s[1..]);
      forall b | b in InsertSorted(d, a, s[1..]) ensures InOrder(d, s[0], b) {
        if b in s[1..] {
          assert b in s;
          SortedHead(d, s, b);
        }
      }
      SortedCons(d, s[0], InsertSorted(d, a, s[1..]));
    }
  }

  lemma {:induction false} SortProps(d: Direction, s: seq<Apiary>)
    ensures Sorted(d, Sort(d, s))
    ensures multiset(Sort(d, s)) == multiset(s)
    ensures |Sort(d, s)| == |s|
    ensures forall a :: a in Sort(d, s) <==> a in s
  {
    if s != [] {
      var front, last := s[..|s| - 1], s[|s| - 1];
      SortProps(d, front);
      InsertSortedProps(d, last, Sort(d, front));
      InsertSortedMembers(d, last, Sort(d, front));
      assert s == front + [last];
      assert |multiset(Sort(d, s))| == |multiset(s)|;
    }
  }

  /** Two rows of a table with distinct ids are the same row when their ids are equal. */
  lemma SameId(s: seq<Apiary>, a: Apiary, b: Apiary)
    requires DistinctIds(s) && a in s && b in s && a.id == b.id
    ensures a == b
  {
    var i :| 0 <= i < |s| && s[i] == a;
    var j :| 0 <= j < |s| && s[j] == b;
    assert i == j;
  }

  lemma SortedHead(d: Direction, s: seq<Apiary>, a: Apiary)
    requires Sorted(d, s) && a in s
    ensures InOrder(d, s[0], a)
  {
    var i :| 0 <= i < |s| && s[i] == a;
  }

  lemma MultisetTail(s: seq<Apiary>)
    requires s != []
    ensures multiset(s[1..]) == multiset(s) - multiset{s[0]}
    ensures s[0] in multiset(s)
  {
    assert s == [s[0]] + s[1..];
  }

  lemma {:induction false} SortedPermutationsAgree(d: Direction, s: seq<Apiary>, r: seq<Apiary>, t: seq<Apiary>)
    requires Sorted(d, s) && Sorted(d, r) && multiset(s) == multiset(r)
    requires DistinctIds(t) && forall a :: a in s ==> a in t
    ensures s == r
  {
    assert |multiset(s)| == |multiset(r)|;
    if s != [] {
      MultisetTail(s);
      MultisetTail(r);
      SortedHead(d, r, s[0]);
      SortedHead(d, s, r[0]);
      SameId(t, s[0], r[0]);
      SortedPermutationsAgree(d, s[1..], r[1..], t);
      assert s == [s[0]] + s[1..] && r == [r[0]] + r[1..];
    }
  }

  /** Over distinct ids the order is determined: the sorted permutation is unique. */
  lemma SortUnique(d: Direction, s: seq<Apiary>, r: seq<Apiary>)
    requires DistinctIds(s) && Sorted(d, r) && multiset(r) == multiset(s)
    ensures r == Sort(d, s)
  {
    SortProps(d, s);
    forall a | a in r ensures a in s {
      assert a in multiset(r);
    }
    SortedPermutationsAgree(d, r, Sort(d, s), s);
  }

  /** The order in which PostgreSQL happens to store the rows cannot be observed. */
  lemma SortIgnoresStorageOrder(d: Direction, s: seq<Apiary>, t: seq<Apiary>)
    requires DistinctIds(s) && multiset(s) == multiset(t)
    ensures Sort(d, s) == Sort(d, t)
  {
    SortProps(d, t);
    SortUnique(d, s, Sort(d, t));
  }

  lemma {:induction false} ReverseMultiset<T>(s: seq<T>)
    ensures multiset(Reverse(s)) == multiset(s)
  {
    if s != [] {
      ReverseMultiset(s[..|s| - 1]);
      assert s == s[..|s| - 1] + [s[|s| - 1]];
      assert Reverse(s) == [s[|s| - 1]] + Reverse(s[..|s| - 1]);
    }
  }

  /** Descending is the exact reverse of ascending, because id breaks every tie. */
  lemma DescendingReverses(s: seq<Apiary>)
    requires DistinctIds(s)
    ensures Sort(Desc, s) == Reverse(Sort(Asc, s))
  {
    SortProps(Asc, s);
    ReverseMultiset(Sort(Asc, s));
    SortUnique(Desc, s, Reverse(Sort(Asc, s)));
  }

  lemma {:induction false} InsertBeforeAll(d: Direction, a: Apiary, s: seq<Apiary>)
    requires forall b :: b in s ==> InOrder(d, a, b)
    ensures InsertSorted(d, a, s) == [a] + s
  {
    if s != [] {
      assert s[0] in s;
    }
  }

  lemma FilterCons(a: Apiary, s: seq<Apiary>, p: Apiary -> bool)
    ensures Filter([a] + s, p) == if p(a) then [a] + Filter(s, p) else Filter(s, p)
  {
    FilterConcat([a], s, p);
    assert [a][..0] == [];
    assert [] + Filter(s, p) == Filter(s, p);
  }

  lemma SortedFrom(d: Direction, a: Apiary, s: seq<Apiary>)
    requires Sorted(d, s) && s != [] && InOrder(d, a, s[0])
    ensures forall b :: b in s ==> InOrder(d, a, b)
  {
    forall b | b in s ensures InOrder(d, a, b) {
      SortedHead(d, s, b);
    }
  }

  lemma InsertCons(d: Direction, a: Apiary, head: Apiary, tail: seq<Apiary>)
    requires !InOrder(d, a, head)
    ensures InsertSorted(d, a, [head] + tail) == [head] + InsertSorted(d, a, tail)
  {
    assert ([head] + tail)[1..] == tail;
  }

  lemma InsertFilterStep(d: Direction, a: Apiary, head: Apiary, tail: seq<Apiary>, p: Apiary -> bool)
    requires !InOrder(d, a, head)
    requires Filter(InsertSorted(d, a, tail), p)
          == if p(a) then InsertSorted(d, a, Filter(tail, p)) else Filter(tail, p)
    ensures Filter(InsertSorted(d, a, [head] + tail), p)
         == if p(a) then InsertSorted(d, a, Filter([head] + tail, p)) else Filter([head] + tail, p)
  {
    FilterCons(head, tail, p);
    FilterCons(head, InsertSorted(d, a, tail), p);
    InsertCons(d, a, head, tail);
    InsertCons(d, a, head, Filter(tail, p));
  }

  lemma {:induction false} InsertFilter(d: Direction, a: Apiary, s: seq<Apiary>, p: Apiary -> bool)
    requires Sorted(d, s)
    ensures Filter(InsertSorted(d, a, s), p)
         == if p(a) then InsertSorted(d, a, Filter(s, p)) else Filter(s, p)
  {
    if s == [] || InOrder(d, a, s[0]) {
      if s != [] {
        SortedFrom(d, a, s);
      }
      FilterCons(a, s, p);
      InsertBeforeAll(d, a, s);
      InsertBeforeAll(d, a, Filter(s, p));
    } else {
      assert s == [s[0]] + s[1..];
      InsertFilter(d, a, s[1..], p);
      InsertFilterStep(d, a, s[0], s[1..], p);
    }
  }

  /** Sorting and filtering commute. */
  lemma {:induction false} SortFilter(d: Direction, s: seq<Apiary>, p: Apiary -> bool)
    ensures Sort(d, Filter(s, p)) == Filter(Sort(d, s), p)
  {
    if s != [] {
      var front, last := s[..|s| - 1], s[|s| - 1];
      SortFilter(d, front, p);
      SortProps(d, front);
      InsertFilter(d, last, Sort(d, front), p);
      if p(last) {
        var f := Filter(front, p);
        assert (f + [last])[..|f|] == f;
      }
    }
  }

  lemma DistinctIdsFilter(s: seq<Apiary>, p: Apiary -> bool)
    requires DistinctIds(s)
    ensures DistinctIds(Filter(s, p))
  {
    if s != [] {
      var front := s[..|s| - 1];
      DistinctIdsFilter(front, p);
      var f := Filter(front, p);
      forall i | 0 <= i < |f| ensures f[i].id != s[|s| - 1].id {
        assert f[i] in f;
      }
    }
  }

  lemma DistinctIdsSort(d: Direction, s: seq<Apiary>)
    requires DistinctIds(s)
    ensures DistinctIds(Sort(d, s))
  {
    SortProps(d, s);
    var r := Sort(d, s);
    forall i, j | 0 <= i < j < |r| ensures r[i].id != r[j].id {
      assert r[i] in s && r[j] in s;
      DistinctCountOne(s, r[i]);
      CountTwice(r, i, j);
      if r[i].id == r[j].id {
        SameId(s, r[i], r[j]);
        assert false;
      }
    }
  }

  lemma CountTwice(s: seq<Apiary>, i: nat, j: nat)
    requires i < j < |s|
    ensures s[i] == s[j] ==> multiset(s)[s[i]] >= 2
  {
    assert s == s[..j] + [s[j]] + s[j + 1..];
    assert s[i] in s[..j];
  }

  lemma {:induction false} DistinctCountOne(s: seq<Apiary>, a: Apiary)
    requires DistinctIds(s)
    ensures multiset(s)[a] <= 1
  {
    if s != [] {
      DistinctCountOne(s[..|s| - 1], a);
      assert s == s[..|s| - 1] + [s[|s| - 1]];
      if s[|s| - 1] == a {
        assert a !in s[..|s| - 1];
      }
    }
  }
}
