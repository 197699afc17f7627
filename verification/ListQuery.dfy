/** ListByUser: two parameterised statements grown clause by clause, and the listing they mean. */
module ListQuery {
  import opened Seqs
  import opened Domain
  import opened Ordering
  import opened Table
  import opened Like

  // ---- statements and their evaluation ----

  /** A bound argument. `Null` is how a nil id slice would be sent. */
  datatype Value = Uuid(id: Id) | UuidArray(ids: seq<Id>) | Null | Text(text: string) | Number(n: nat)

  /** WHERE conditions; a placeholder is written with its number, counted from 1. */
  datatype Cond =
    | UserIdIs(placeholder: nat)
    | IdIs(placeholder: nat)
    | NotDeleted
    | IdNotAll(placeholder: nat)
    | NameOrLocationILike(name: nat, location: nat)

  datatype Page = WholeTable | OnlyLimit(limit: nat) | LimitOffset(limit: nat, offset: nat)

  /** A SELECT over apiaries: conjuncts, order, and the placeholders of LIMIT and OFFSET. */
  datatype Statement = Statement(conjuncts: seq<Cond>, order: Option<Direction>, page: Page)

  function Arg(args: seq<Value>, placeholder: nat): Option<Value> {
    if 1 <= placeholder <= |args| then Some(args[placeholder - 1]) else None
  }

  predicate Typed(args: seq<Value>, c: Cond) {
    match c
    case UserIdIs(p) => Arg(args, p).Some? && Arg(args, p).value.Uuid?
    case IdIs(p) => Arg(args, p).Some? && Arg(args, p).value.Uuid?
    case NotDeleted => true
    case IdNotAll(p) => Arg(args, p).Some? && (Arg(args, p).value.UuidArray? || Arg(args, p).value.Null?)
    case NameOrLocationILike(n, l) =>
      Arg(args, n).Some? && Arg(args, n).value.Text? && Arg(args, l).Some? && Arg(args, l).value.Text?
  }

  function Highest(c: Cond): nat {
    match c
    case UserIdIs(p) => p
    case IdIs(p) => p
    case NotDeleted => 0
    case IdNotAll(p) => p
    case NameOrLocationILike(n, l) => Max(n, l)
  }

  function HighestOf(conjuncts: seq<Cond>): nat {
    if conjuncts == [] then 0 else Max(HighestOf(conjuncts[..|conjuncts| - 1]), Highest(conjuncts[|conjuncts| - 1]))
  }

  /** The server takes the statement: every argument has its placeholder and its type. */
  predicate Accepts(q: Statement, args: seq<Value>) {
    && (forall c :: c in q.conjuncts ==> Typed(args, c))
    && match q.page
       case WholeTable => HighestOf(q.conjuncts) == |args|
       case OnlyLimit(l) =>
         && Max(HighestOf(q.conjuncts), l) == |args|
         && Arg(args, l).Some? && Arg(args, l).value.Number?
       case LimitOffset(l, o) =>
         && Max(HighestOf(q.conjuncts), Max(l, o)) == |args|
         && Arg(args, l).Some? && Arg(args, l).value.Number?
         && Arg(args, o).Some? && Arg(args, o).value.Number?
  }

  /** Whether a condition is true of a row; a comparison with NULL is not. */
  predicate CondHolds(fold: char -> char, args: seq<Value>, c: Cond, row: Apiary) {
    Typed(args, c) &&
    match c
    case UserIdIs(p) => row.userId == Arg(args, p).value.id
    case IdIs(p) => row.id == Arg(args, p).value.id
    case NotDeleted => row.Live()
    case IdNotAll(p) => Arg(args, p).value.UuidArray? && row.id !in Arg(args, p).value.ids
    case NameOrLocationILike(n, l) =>
      ILike(fold, row.name, Arg(args, n).value.text) || ILike(fold, row.location, Arg(args, l).value.text)
  }

  function Where(fold: char -> char, q: Statement, args: seq<Value>): Apiary -> bool {
    (row: Apiary) => forall c :: c in q.conjuncts ==> CondHolds(fold, args, c, row)
  }

  function SelectCount(fold: char -> char, t: seq<Apiary>, q: Statement, args: seq<Value>): nat
    requires Accepts(q, args)
  {
    |Filter(t, Where(fold, q, args))|
  }

  function SelectRows(fold: char -> char, t: seq<Apiary>, q: Statement, args: seq<Value>): seq<Apiary>
    requires Accepts(q, args)
  {
    var matched := Filter(t, Where(fold, q, args));
    var ordered := if q.order.Some? then Sort(q.order.value, matched) else matched;
    match q.page
    case WholeTable => ordered
    case OnlyLimit(l) => Slice(ordered, 0, Arg(args, l).value.n)
    case LimitOffset(l, o) => Slice(ordered, Arg(args, o).value.n, Arg(args, l).value.n)
  }

  // ---- what a listing means ----

  function Utf8Bytes(c: char): nat {
    if c as int < 0x80 then 1 else if c as int < 0x800 then 2 else if c as int < 0x1_0000 then 3 else 4
  }

  /** Search terms are measured in bytes of UTF-8, as Go's len does. */
  function Utf8Length(s: string): nat {
    if s == "" then 0 else Utf8Length(s[..|s| - 1]) + Utf8Bytes(s[|s| - 1])
  }

  datatype Filters = Filters(search: Option<string>, withoutHivesOnly: bool, idsWithHives: Option<seq<Id>>)
  {
    predicate Searches() {
      search.Some? && Utf8Length(search.value) >= MIN_SEARCH_LENGTH
    }
  }

  /** The rows a listing is about: owned, live, not hidden by the hive filter, and matching
      the search when the term is long enough to be applied. */
  function Wanted(fold: char -> char, user: Id, f: Filters): Apiary -> bool {
    (a: Apiary) =>
      && LiveOf(user)(a)
      && (f.withoutHivesOnly && f.idsWithHives.Some? ==> a.id !in f.idsWithHives.value)
      && (f.Searches() ==> ILike(fold, a.name, Containing(f.search.value)) ||
                           ILike(fold, a.location, Containing(f.search.value)))
  }

  /** The direction a sortOrder parameter asks for; none means the default, ascending. */
  function CreatedAtOrder(sortOrder: Option<string>): Direction {
    if sortOrder == Some("desc") then Desc else Asc
  }

  function Matching(fold: char -> char, t: seq<Apiary>, user: Id, f: Filters, d: Direction): (r: seq<Apiary>)
    ensures |r| == |Filter(t, Wanted(fold, user, f))|
  {
    SortProps(d, Filter(t, Wanted(fold, user, f)));
    Sort(d, Filter(t, Wanted(fold, user, f)))
  }

  lemma PageSorted(fold: char -> char, t: seq<Apiary>, user: Id, f: Filters, d: Direction, offset: nat, limit: nat)
    ensures var page := Slice(Matching(fold, t, user, f, d), offset, limit);
            Sorted(d, page) && forall a :: a in page ==> a in t && Wanted(fold, user, f)(a)
  {
    SortProps(d, Filter(t, Wanted(fold, user, f)));
    SliceMembers(Matching(fold, t, user, f, d), offset, limit);
  }

  lemma SliceMembers(s: seq<Apiary>, offset: nat, limit: nat)
    ensures forall a :: a in Slice(s, offset, limit) ==> a in s
  {
  }

  /** Offset of a page, pages counted from 1. */
  function Offset(page: nat, limit: nat): nat
    requires page >= 1
  {
    if page == 1 then 0 else Offset(page - 1, limit) + limit
  }

  lemma {:induction false} OffsetIs(page: nat, limit: nat)
    requires page >= 1
    ensures Offset(page, limit) == (page - 1) * limit
  {
    if page > 1 {
      OffsetIs(page - 1, limit);
    }
  }

  // ---- building the statements ----

  lemma HighestSnoc(conjuncts: seq<Cond>, c: Cond)
    ensures HighestOf(conjuncts + [c]) == Max(HighestOf(conjuncts), Highest(c))
  {
    assert (conjuncts + [c])[..|conjuncts|] == conjuncts;
  }

  lemma HighestOne(a: Cond)
    ensures HighestOf([a]) == Highest(a)
  {
    assert [a][..0] == [];
  }

  lemma HighestTwo(a: Cond, b: Cond)
    ensures HighestOf([a, b]) == Max(Highest(a), Highest(b))
  {
    HighestOne(a);
    assert [a, b][..1] == [a];
  }

  lemma HighestThree(a: Cond, b: Cond, c: Cond)
    ensures HighestOf([a, b, c]) == Max(Max(Highest(a), Highest(b)), Highest(c))
  {
    HighestTwo(a, b);
    assert [a, b, c][..2] == [a, b];
  }

  /** Exactly the conjuncts the filters call for, the search term at placeholder `k`. */
  ghost predicate Conjuncts(f: Filters, searched: bool, conjuncts: seq<Cond>, k: nat) {
    forall c :: c in conjuncts <==>
      || c == UserIdIs(1)
      || c == NotDeleted
      || (f.withoutHivesOnly && c == IdNotAll(2))
      || (searched && c == NameOrLocationILike(k, k))
  }

  /** Every placeholder is bound to the argument meant for it. */
  ghost predicate Bound(user: Id, f: Filters, args: seq<Value>, k: nat) {
    && Arg(args, 1) == Some(Uuid(user))
    && (f.withoutHivesOnly ==>
          Arg(args, 2) == Some(UuidArray(if f.idsWithHives.None? then [] else f.idsWithHives.value)))
    && (f.Searches() ==> Arg(args, k) == Some(Text(Containing(f.search.value))))
  }

  /** What the conjuncts of both statements say, given what their placeholders are bound to. */
  lemma ConjunctsMean(fold: char -> char, row: Apiary, user: Id, f: Filters, q: Statement, args: seq<Value>, k: nat)
    requires Conjuncts(f, f.Searches(), q.conjuncts, k) && Bound(user, f, args, k)
    ensures Where(fold, q, args)(row) == Wanted(fold, user, f)(row)
  {
    var holds := (c: Cond) => CondHolds(fold, args, c, row);
    assert holds(UserIdIs(1)) && holds(NotDeleted) <==> LiveOf(user)(row);
    assert f.withoutHivesOnly ==>
      (holds(IdNotAll(2)) <==> (f.idsWithHives.Some? ==> row.id !in f.idsWithHives.value));
    assert f.Searches() ==>
      (holds(NameOrLocationILike(k, k)) <==>
        ILike(fold, row.name, Containing(f.search.value)) || ILike(fold, row.location, Containing(f.search.value)));
    if Where(fold, q, args)(row) {
      assert UserIdIs(1) in q.conjuncts && NotDeleted in q.conjuncts;
      assert f.withoutHivesOnly ==> IdNotAll(2) in q.conjuncts;
      assert f.Searches() ==> NameOrLocationILike(k, k) in q.conjuncts;
    } else {
      var c :| c in q.conjuncts && !CondHolds(fold, args, c, row);
      assert !holds(c);
    }
  }

  lemma AlwaysMean(user: Id, f: Filters, q: Statement, args: seq<Value>, k: nat)
    requires Conjuncts(f, f.Searches(), q.conjuncts, k) && Bound(user, f, args, k)
    ensures forall fold: char -> char, row :: Where(fold, q, args)(row) == Wanted(fold, user, f)(row)
  {
    forall fold: char -> char, row ensures Where(fold, q, args)(row) == Wanted(fold, user, f)(row) {
      ConjunctsMean(fold, row, user, f, q, args, k);
    }
  }

  lemma CountAccepted(user: Id, f: Filters, q: Statement, args: seq<Value>)
    requires q.page == WholeTable && HighestOf(q.conjuncts) == |args|
    requires Conjuncts(f, f.Searches(), q.conjuncts, |args|) && Bound(user, f, args, |args|)
    ensures Accepts(q, args)
  {
  }

  lemma ListAccepted(user: Id, f: Filters, q: Statement, args: seq<Value>, k: nat)
    requires q.page == LimitOffset(k + 1, k + 2) && HighestOf(q.conjuncts) == k && |args| == k + 2
    requires args[k].Number? && args[k + 1].Number?
    requires Conjuncts(f, f.Searches(), q.conjuncts, k) && Bound(user, f, args, k)
    ensures Accepts(q, args)
  {
  }

  lemma BoundMore(user: Id, f: Filters, args: seq<Value>, more: seq<Value>, k: nat)
    requires Bound(user, f, args, k)
    ensures Bound(user, f, args + more, k)
  {
    assert forall p :: 1 <= p <= |args| ==> Arg(args + more, p) == Arg(args, p);
  }

  lemma BaseConjuncts(f: Filters, k: nat)
    ensures Conjuncts(f, false, [UserIdIs(1), NotDeleted] + (if f.withoutHivesOnly then [IdNotAll(2)] else []), k)
    ensures !f.withoutHivesOnly ==> Conjuncts(f, false, [UserIdIs(1), NotDeleted], k)
  {
  }

  lemma MoreConjuncts(f: Filters, conjuncts: seq<Cond>, k: nat)
    requires Conjuncts(f, false, conjuncts, k)
    ensures Conjuncts(f, true, conjuncts + [NameOrLocationILike(k, k)], k)
  {
  }

  /** The two statements ListByUser sends, with their argument lists. Whatever the filters,
      the server accepts both, both select exactly the wanted rows of every table, and the
      list statement orders and cuts as asked. */
  method BuildListQueries(user: Id, limit: nat, offset: nat, sortOrder: Option<string>, f: Filters)
    returns (countQ: Statement, countArgs: seq<Value>, q: Statement, listArgs: seq<Value>)
    ensures Accepts(countQ, countArgs) && Accepts(q, listArgs)
    ensures forall fold: char -> char, row ::
              Where(fold, countQ, countArgs)(row) == Wanted(fold, user, f)(row)
    ensures forall fold: char -> char, row ::
              Where(fold, q, listArgs)(row) == Wanted(fold, user, f)(row)
    ensures q.order == Some(if sortOrder == Some("desc") then Desc else Asc) && q.page.LimitOffset?
    ensures Arg(listArgs, q.page.limit) == Some(Number(limit))
    ensures Arg(listArgs, q.page.offset) == Some(Number(offset))
  {
    countQ := Statement([UserIdIs(1), NotDeleted], None, WholeTable);
    q := Statement([UserIdIs(1), NotDeleted], None, WholeTable);
    countArgs := [Uuid(user)];
    var argIdx := 2;
    HighestTwo(UserIdIs(1), NotDeleted);

    if f.withoutHivesOnly {
      var cond := IdNotAll(argIdx);
      HighestSnoc(countQ.conjuncts, cond);
      countQ := countQ.(conjuncts := countQ.conjuncts + [cond]);
      q := q.(conjuncts := q.conjuncts + [cond]);
      var ids := if f.idsWithHives.None? then [] else f.idsWithHives.value;
      countArgs := countArgs + [UuidArray(ids)];
      argIdx := argIdx + 1;
    }
    BaseConjuncts(f, argIdx);

    listArgs := countArgs;

    if f.Searches() {
      var pattern := Containing(f.search.value);
      var cond := NameOrLocationILike(argIdx, argIdx);
      HighestSnoc(countQ.conjuncts, cond);
      MoreConjuncts(f, countQ.conjuncts, argIdx);
      countQ := countQ.(conjuncts := countQ.conjuncts + [cond]);
      q := q.(conjuncts := q.conjuncts + [cond]);
      countArgs := countArgs + [Text(pattern)];
      listArgs := listArgs + [Text(pattern)];
      argIdx := argIdx + 1;
    }
    assert Conjuncts(f, f.Searches(), countQ.conjuncts, |countArgs|);
    assert Bound(user, f, countArgs, |countArgs|);
    CountAccepted(user, f, countQ, countArgs);

    q := q.(order := Some(CreatedAtOrder(sortOrder)), page := LimitOffset(argIdx, argIdx + 1));
    listArgs := listArgs + [Number(limit), Number(offset)];
    BoundMore(user, f, countArgs, [Number(limit), Number(offset)], |countArgs|);
    ListAccepted(user, f, q, listArgs, |countArgs|);

    AlwaysMean(user, f, countQ, countArgs, |countArgs|);
    AlwaysMean(user, f, q, listArgs, |countArgs|);
  }

  /** A listing searched for a plain term is about containment in name or location. */
  lemma PlainSearchWants(fold: char -> char, user: Id, f: Filters, a: Apiary)
    requires MetaSafe(fold) && f.Searches() && Plain(f.search.value)
    ensures Wanted(fold, user, f)(a)
       <==> && Wanted(fold, user, f.(search := None))(a)
            && (Contains(Fold(fold, a.name), Fold(fold, f.search.value)) ||
                Contains(Fold(fold, a.location), Fold(fold, f.search.value)))
  {
    SearchIsContainment(fold, f.search.value);
    var term, others := f.search.value, f.(search := None);
    assert ILike(fold, a.name, Containing(term)) <==> Contains(Fold(fold, a.name), Fold(fold, term));
    assert ILike(fold, a.location, Containing(term)) <==> Contains(Fold(fold, a.location), Fold(fold, term));
    assert !others.Searches();
    assert Wanted(fold, user, others)(a) <==>
      LiveOf(user)(a) && (f.withoutHivesOnly && f.idsWithHives.Some? ==> a.id !in f.idsWithHives.value);
    assert Wanted(fold, user, f)(a) <==>
      Wanted(fold, user, others)(a) && (ILike(fold, a.name, Containing(term)) || ILike(fold, a.location, Containing(term)));
  }

  /** Why a nil id slice is replaced by an empty one: an accepted statement that compares ids
      with a NULL list finds nothing in any table, and with an empty list that condition rules
      nothing out. */
  lemma NullHidesEverything(fold: char -> char, t: seq<Apiary>, q: Statement, args: seq<Value>, p: nat)
    requires Accepts(q, args) && IdNotAll(p) in q.conjuncts
    ensures Arg(args, p) == Some(Null) ==> SelectCount(fold, t, q, args) == 0 && SelectRows(fold, t, q, args) == []
    ensures Arg(args, p) == Some(UuidArray([])) ==> forall row :: CondHolds(fold, args, IdNotAll(p), row)
  {
    if Arg(args, p) == Some(Null) {
      forall row | row in t ensures !Where(fold, q, args)(row) {
        assert !CondHolds(fold, args, IdNotAll(p), row);
      }
      NoneMatch(t, Where(fold, q, args));
    }
  }

  lemma {:induction false} Utf8AtLeast(s: string)
    ensures |s| <= Utf8Length(s)
  {
    if s != "" {
      Utf8AtLeast(s[..|s| - 1]);
    }
  }

  lemma {:induction false} Utf8Short(s: string)
    ensures |s| == 1 ==> Utf8Length(s) == Utf8Bytes(s[0])
    ensures |s| == 2 ==> Utf8Length(s) == Utf8Bytes(s[0]) + Utf8Bytes(s[1])
  {
    if |s| == 1 {
      assert s[..0] == "";
    } else if |s| == 2 {
      Utf8Short(s[..1]);
    }
  }

  /** The length test counts bytes where the documented minimum counts characters: they agree
      exactly on the terms that are neither one character from U+0800 on nor two characters of
      which one lies beyond ASCII, and there the shorter term is searched all the same. */
  lemma {:induction false} MinimumLengthInBytes(s: string)
    ensures (Utf8Length(s) >= MIN_SEARCH_LENGTH <==> |s| >= MIN_SEARCH_LENGTH)
       <==> !((|s| == 1 && s[0] as int >= 0x800) || (|s| == 2 && (s[0] as int >= 0x80 || s[1] as int >= 0x80)))
    ensures |s| >= MIN_SEARCH_LENGTH ==> Utf8Length(s) >= MIN_SEARCH_LENGTH
  {
    Utf8AtLeast(s);
    Utf8Short(s);
  }

  /** Two terms shorter than three characters that are searched: e-acute with an a, and one
      character of three bytes. */
  lemma ShortTermsSearched()
    ensures Filters(Some("\U{00E9}a"), false, None).Searches() && |"\U{00E9}a"| == 2
    ensures Filters(Some("\U{20AC}"), false, None).Searches() && |"\U{20AC}"| == 1
  {
    Utf8Short("\U{00E9}a");
    Utf8Short("\U{20AC}");
  }

  // ---- paging ----

  /** Pages 1 to n, one after the other. */
  function FirstPages(s: seq<Apiary>, limit: nat, n: nat): seq<Apiary> {
    if n == 0 then [] else FirstPages(s, limit, n - 1) + Slice(s, Offset(n, limit), limit)
  }

  /** The pages it takes to show `total` rows. */
  function PageCount(total: nat, limit: nat): nat
    requires limit > 0
  {
    if total == 0 then 0 else if total <= limit then 1 else 1 + PageCount(total - limit, limit)
  }

  /** The last page holds a row, and no page more than `limit`: the count is total / limit,
      rounded up. */
  lemma {:induction false} PageCountCovers(total: nat, limit: nat)
    requires limit > 0
    ensures total <= Offset(PageCount(total, limit) + 1, limit) < total + limit
    decreases total
  {
    if total > limit {
      PageCountCovers(total - limit, limit);
    }
  }

  lemma {:induction false} OffsetGrows(page: nat, later: nat, limit: nat)
    requires 1 <= page <= later
    ensures Offset(page, limit) <= Offset(later, limit)
  {
    if page < later {
      OffsetGrows(page, later - 1, limit);
    }
  }

  lemma {:induction false} FirstPagesPrefix(s: seq<Apiary>, limit: nat, n: nat)
    ensures FirstPages(s, limit, n) == s[..Min(Offset(n + 1, limit), |s|)]
  {
    if n > 0 {
      FirstPagesPrefix(s, limit, n - 1);
    }
  }

  /** On an unchanged table the pages partition the listing: together they are the wanted rows
      in order, each exactly once, and every later page is empty. */
  lemma PagesPartition(fold: char -> char, t: seq<Apiary>, user: Id, f: Filters, d: Direction, limit: nat)
    requires limit > 0 && DistinctIds(t)
    ensures var all := FirstPages(Matching(fold, t, user, f, d), limit,
                                  PageCount(|Filter(t, Wanted(fold, user, f))|, limit));
            && Sorted(d, all) && DistinctIds(all)
            && multiset(all) == multiset(Filter(t, Wanted(fold, user, f)))
    ensures forall page: nat :: page > PageCount(|Filter(t, Wanted(fold, user, f))|, limit)
              ==> Slice(Matching(fold, t, user, f, d), Offset(page, limit), limit) == []
  {
    var m := Filter(t, Wanted(fold, user, f));
    SortProps(d, m);
    DistinctIdsFilter(t, Wanted(fold, user, f));
    DistinctIdsSort(d, m);
    AllPages(Sort(d, m), limit);
    forall page: nat | page > PageCount(|m|, limit)
      ensures Slice(Sort(d, m), Offset(page, limit), limit) == []
    {
      LaterPage(Sort(d, m), page, limit);
    }
  }

  lemma AllPages(s: seq<Apiary>, limit: nat)
    requires limit > 0
    ensures FirstPages(s, limit, PageCount(|s|, limit)) == s
  {
    PageCountCovers(|s|, limit);
    FirstPagesPrefix(s, limit, PageCount(|s|, limit));
    assert s[..|s|] == s;
  }

  lemma LaterPage(s: seq<Apiary>, page: nat, limit: nat)
    requires limit > 0 && page > PageCount(|s|, limit)
    ensures Slice(s, Offset(page, limit), limit) == []
  {
    PageCountCovers(|s|, limit);
    OffsetGrows(PageCount(|s|, limit) + 1, page, limit);
  }

  lemma ReverseSlice(s: seq<Apiary>, from: nat, to: nat)
    requires from <= to <= |s|
    ensures Reverse(s)[from..to] == Reverse(s[|s| - to..|s| - from])
  {
    var cut := s[|s| - to..|s| - from];
    forall i | 0 <= i < to - from ensures Reverse(s)[from..to][i] == Reverse(cut)[i] {
      assert Reverse(s)[from + i] == s[|s| - 1 - (from + i)];
      assert Reverse(cut)[i] == cut[|cut| - 1 - i];
    }
  }

  lemma SliceIs(s: seq<Apiary>, offset: nat, limit: nat)
    requires offset <= |s|
    ensures Slice(s, offset, limit) == s[offset..Min(offset + limit, |s|)]
  {
  }

  /** The stretch of `s` as far from its end as `offset` is from its start, read backwards. */
  function Mirror(s: seq<Apiary>, offset: nat, limit: nat): seq<Apiary>
    requires offset <= |s|
  {
    Reverse(s[Max(0, |s| - offset - limit)..|s| - offset])
  }

  lemma ReversedStretch(s: seq<Apiary>, offset: nat, limit: nat)
    requires offset <= |s|
    ensures Slice(Reverse(s), offset, limit) == Mirror(s, offset, limit)
  {
    var to := Min(offset + limit, |s|);
    SliceIs(Reverse(s), offset, limit);
    ReverseSlice(s, offset, to);
    assert |s| - to == Max(0, |s| - offset - limit);
  }

  /** With T rows, descending page k of size L is the ascending rows from T - kL (or the start)
      to T - (k-1)L, read backwards. */
  lemma DescendingPage(fold: char -> char, t: seq<Apiary>, user: Id, f: Filters, page: nat, limit: nat)
    requires DistinctIds(t) && page >= 1
    requires Offset(page, limit) <= |Filter(t, Wanted(fold, user, f))|
    ensures Slice(Matching(fold, t, user, f, Desc), Offset(page, limit), limit)
         == Mirror(Matching(fold, t, user, f, Asc), Offset(page, limit), limit)
  {
    DistinctIdsFilter(t, Wanted(fold, user, f));
    DescendingReverses(Filter(t, Wanted(fold, user, f)));
    ReversedStretch(Matching(fold, t, user, f, Asc), Offset(page, limit), limit);
  }
}
