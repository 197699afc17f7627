/** Sequence vocabulary shared by the whole project. */
module Seqs {

  /** The elements of `s` satisfying `p`, in their order in `s`. */
  function Filter<T(!new)>(s: seq<T>, p: T -> bool): (r: seq<T>)
    ensures forall x {:trigger x in r} :: x in r <==> x in s && p(x)
    ensures |r| <= |s|
  {
    if s == [] then []
    else
      var front := Filter(s[..|s| - 1], p);
      if p(s[|s| - 1]) then front + [s[|s| - 1]] else front
  }

  ghost predicate NoDup<T>(s: seq<T>) {
    forall i, j :: 0 <= i < j < |s| ==> s[i] != s[j]
  }

  ghost function Elems<T>(s: seq<T>): set<T> {
    set x | x in s
  }

  function Min(a: int, b: int): int {
    if a < b then a else b
  }

  function Max(a: int, b: int): int {
    if a < b then b else a
  }

  /** At most `limit` elements of `s` from position `offset` on. */
  function Slice<T>(s: seq<T>, offset: nat, limit: nat): seq<T> {
    var from := if offset < |s| then offset else |s|;
    var to := if from + limit < |s| then from + limit else |s|;
    s[from..to]
  }

  function Reverse<T>(s: seq<T>): seq<T> {
    seq(|s|, i requires 0 <= i < |s| => s[|s| - 1 - i])
  }

  lemma FilterSnoc<T(!new)>(s: seq<T>, x: T, p: T -> bool)
    ensures Filter(s + [x], p) == if p(x) then Filter(s, p) + [x] else Filter(s, p)
  {
    assert (s + [x])[..|s|] == s;
  }

  lemma ConcatAssociates<T>(a: seq<T>, b: seq<T>, c: seq<T>)
    ensures (a + b) + c == a + (b + c)
  {
  }

  lemma {:induction false} FilterConcat<T(!new)>(s: seq<T>, t: seq<T>, p: T -> bool)
    ensures Filter(s + t, p) == Filter(s, p) + Filter(t, p)
  {
    if t == [] {
      assert s + t == s && Filter(s, p) + [] == Filter(s, p);
    } else {
      var front, last := t[..|t| - 1], t[|t| - 1];
      FilterConcat(s, front, p);
      FilterConcatSnoc(s, front, last, p);
      assert t == front + [last];
    }
  }

  lemma FilterConcatSnoc<T(!new)>(s: seq<T>, front: seq<T>, last: T, p: T -> bool)
    requires Filter(s + front, p) == Filter(s, p) + Filter(front, p)
    ensures Filter(s + (front + [last]), p) == Filter(s, p) + Filter(front + [last], p)
  {
    ConcatAssociates(s, front, [last]);
    FilterSnoc(s + front, last, p);
    FilterSnoc(front, last, p);
    ConcatAssociates(Filter(s, p), Filter(front, p), [last]);
  }

  /** Filtering twice is filtering once by a predicate that agrees with the conjunction. */
  lemma {:induction false} FilterFilter<T(!new)>(s: seq<T>, p: T -> bool, q: T -> bool, both: T -> bool)
    requires forall x :: x in s ==> (both(x) <==> p(x) && q(x))
    ensures Filter(Filter(s, p), q) == Filter(s, both)
  {
    if s != [] {
      var front, last := s[..|s| - 1], s[|s| - 1];
      FilterFilter(front, p, q, both);
      if p(last) {
        FilterSnoc(Filter(front, p), last, q);
      }
      assert last in s;
    }
  }

  lemma {:induction false} FilterAll<T(!new)>(s: seq<T>, p: T -> bool)
    requires forall x :: x in s ==> p(x)
    ensures Filter(s, p) == s
  {
    if s != [] {
      FilterAll(s[..|s| - 1], p);
      assert s[|s| - 1] in s;
      assert s == s[..|s| - 1] + [s[|s| - 1]];
    }
  }

  lemma FilterSame<T(!new)>(s: seq<T>, p: T -> bool, q: T -> bool)
    requires forall x :: x in s ==> (p(x) <==> q(x))
    ensures Filter(s, p) == Filter(s, q)
  {
    var yes := (x: T) => true;
    FilterAll(s, yes);
    FilterFilter(s, yes, p, q);
  }

  lemma SubsetSize<T>(a: set<T>, b: set<T>)
    requires a <= b
    ensures |a| <= |b| && (|a| == |b| ==> a == b)
  {
    assert b == a + (b - a);
  }

  /** A list of ids has as many distinct ids as entries exactly when no entry repeats. */
  lemma {:induction false} DistinctCount<T>(s: seq<T>)
    ensures |Elems(s)| <= |s|
    ensures |Elems(s)| == |s| <==> NoDup(s)
  {
    if s != [] {
      var front, last := s[..|s| - 1], s[|s| - 1];
      DistinctCount(front);
      assert s == front + [last];
      assert Elems(s) == Elems(front) + {last};
      if last in front {
        var i :| 0 <= i < |front| && front[i] == last;
        assert s[i] == s[|s| - 1];
        assert Elems(s) == Elems(front);
      } else {
        assert forall i :: 0 <= i < |front| ==> front[i] != last;
        assert NoDup(front) ==> NoDup(s);
        assert NoDup(s) ==> NoDup(front);
      }
    }
  }
}
