/** GET /api/lessons (app/api/lessons/route.ts): one lesson by id or by slug, or the lessons
    that pass every given filter, sorted by `sortOrder` in place. A query parameter that is
    absent or empty is "". */
module LessonsRoute {
  import opened Common
  import opened Records

  datatype Query = Query(id: string, slug: string, bookId: string, subjectId: string, gradeId: string)

  /** The `filters` echo: each filter that was applied, with its value. */
  datatype Filters = Filters(bookId: Option<string>, subjectId: Option<string>, gradeId: Option<string>)

  datatype Lessons = One(lesson: Lesson) | Listing(data: seq<Lesson>, total: nat, filters: Filters)

  const NotFound := "Lesson not found"

  function IdIs(id: string): Lesson -> bool { (l: Lesson) => l.id == id }
  function SlugIs(slug: string): Lesson -> bool { (l: Lesson) => l.slug == slug }
  function BookIs(bookId: string): Lesson -> bool { (l: Lesson) => l.bookId == bookId }
  function SubjectIs(subjectId: string): Lesson -> bool { (l: Lesson) => l.subjectId == subjectId }
  function GradeIs(gradeId: string): Lesson -> bool { (l: Lesson) => l.gradeId == gradeId }

  /** A lesson passes every filter the query gives. */
  predicate Matches(l: Lesson, q: Query)
  {
    (q.bookId == "" || l.bookId == q.bookId) &&
    (q.subjectId == "" || l.subjectId == q.subjectId) &&
    (q.gradeId == "" || l.gradeId == q.gradeId)
  }

  function MatchesQuery(q: Query): Lesson -> bool
  {
    (l: Lesson) => Matches(l, q)
  }

  /** The chain of filters, each applied only when its parameter is given. */
  function Filtered(lessons: seq<Lesson>, q: Query): seq<Lesson>
  {
    var byBook := if q.bookId != "" then Filter(lessons, BookIs(q.bookId)) else lessons;
    var bySubject := if q.subjectId != "" then Filter(byBook, SubjectIs(q.subjectId)) else byBook;
    if q.gradeId != "" then Filter(bySubject, GradeIs(q.gradeId)) else bySubject
  }

  /** The chain keeps, in stored order, exactly the lessons that pass all filters at once. */
  lemma FilteredIsConjunction(lessons: seq<Lesson>, q: Query)
    ensures Filtered(lessons, q) == Filter(lessons, MatchesQuery(q))
  {
    var p1 := (l: Lesson) => q.bookId == "" || l.bookId == q.bookId;
    var p2 := (l: Lesson) => q.subjectId == "" || l.subjectId == q.subjectId;
    var p3 := (l: Lesson) => q.gradeId == "" || l.gradeId == q.gradeId;
    var p12 := (l: Lesson) => p1(l) && p2(l);
    FilterWhen(lessons, q.bookId != "", BookIs(q.bookId), p1);
    FilterWhen(Filter(lessons, p1), q.subjectId != "", SubjectIs(q.subjectId), p2);
    FilterFilter(lessons, p1, p2, p12);
    FilterWhen(Filter(lessons, p12), q.gradeId != "", GradeIs(q.gradeId), p3);
    FilterFilter(lessons, p12, p3, MatchesQuery(q));
  }

  function Echo(q: Query): Filters
  {
    Filters(if q.bookId != "" then Some(q.bookId) else None,
            if q.subjectId != "" then Some(q.subjectId) else None,
            if q.gradeId != "" then Some(q.gradeId) else None)
  }

  // ---------------------------------------------------------------------------
  // Sorting by sortOrder

  ghost predicate SortedByOrder(s: seq<Lesson>)
  {
    forall i, j :: 0 <= i < j < |s| ==> s[i].sortOrder <= s[j].sortOrder
  }

  /** `x` placed into `t` by scanning from the right past every entry with a larger sortOrder:
      one step of an insertion sort. */
  function InsertLast(t: seq<Lesson>, x: Lesson): (r: seq<Lesson>)
  {
    if t == [] || t[|t| - 1].sortOrder <= x.sortOrder then t + [x]
    else InsertLast(t[..|t| - 1], x) + [t[|t| - 1]]
  }

  /** The order `sort((a, b) => a.sortOrder - b.sortOrder)` produces: insertion sort, which is
      stable as the comparator contract of ECMAScript 2019 requires. */
  function SortSpec(s: seq<Lesson>): (r: seq<Lesson>)
  {
    if s == [] then [] else InsertLast(SortSpec(s[..|s| - 1]), s[|s| - 1])
  }

  /** The in-place sort of the filtered lessons. */
  method SortBySortOrder(a: array<Lesson>)
    modifies a
    ensures a[..] == SortSpec(old(a[..]))
  {
    ghost var s := a[..];
    var i := 0;
    while i < a.Length
      invariant 0 <= i <= a.Length
      invariant a[..i] == SortSpec(s[..i])
      invariant a[i..] == s[i..]
    {
      assert a[i] == s[i];
      assert a[i + 1..] == a[i..][1..] == s[i..][1..] == s[i + 1..];
      InsertInto(a, i);
      assert s[..i + 1][..i] == s[..i];
      i := i + 1;
    }
    assert s[..a.Length] == s;
  }

  /** One insertion step: a[i] moves left past the larger entries of the sorted a[..i]. */
  method InsertInto(a: array<Lesson>, i: nat)
    requires i < a.Length
    modifies a
    ensures a[..i + 1] == InsertLast(old(a[..i]), old(a[i]))
    ensures a[i + 1..] == old(a[i + 1..])
  {
    var key := a[i];
    ghost var t := a[..i];
    ghost var rest := a[i + 1..];
    var j := i - 1;
    assert t[..j + 1] == t && t[j + 1..] == [];
    assert a[..] == t[..j + 1] + [key] + t[j + 1..] + rest;
    while j >= 0 && a[j].sortOrder > key.sortOrder
      invariant -1 <= j < i
      invariant a[..] == t[..j + 1] + [a[j + 1]] + t[j + 1..] + rest
      invariant InsertLast(t, key) == InsertLast(t[..j + 1], key) + t[j + 1..]
    {
      ghost var before := a[..];
      ShiftStep(t, rest, j, a[j + 1], before);
      InsertStep(t, j, key);
      a[j + 1] := a[j];
      assert a[..] == before[j + 1 := t[j]];
      j := j - 1;
    }
    ghost var before := a[..];
    if j >= 0 {
      ShiftStep(t, rest, j, a[j + 1], before);
    }
    InsertStop(t, j, key);
    a[j + 1] := key;
    assert a[..] == before[j + 1 := key];
    Place(t, rest, j, before[j + 1], key, before);
    assert |t| == i;
    assert a[..i + 1] == a[..][..i + 1];
    assert a[i + 1..] == a[..][i + 1..];
  }

  /** Moving t[j] one slot right moves the hole from j + 1 to j. */
  lemma ShiftStep(t: seq<Lesson>, rest: seq<Lesson>, j: int, x: Lesson, cur: seq<Lesson>)
    requires 0 <= j < |t| && cur == t[..j + 1] + [x] + t[j + 1..] + rest
    ensures cur[j] == t[j]
    ensures cur[j + 1 := t[j]] == t[..j] + [t[j]] + t[j..] + rest
  {
    assert t[..j + 1] == t[..j] + [t[j]];
    assert t[j..] == [t[j]] + t[j + 1..];
  }

  lemma InsertStep(t: seq<Lesson>, j: int, x: Lesson)
    requires 0 <= j < |t| && t[j].sortOrder > x.sortOrder
    ensures InsertLast(t[..j + 1], x) + t[j + 1..] == InsertLast(t[..j], x) + t[j..]
  {
    assert t[..j + 1][..j] == t[..j];
    assert t[j..] == [t[j]] + t[j + 1..];
  }

  lemma InsertStop(t: seq<Lesson>, j: int, x: Lesson)
    requires -1 <= j < |t| && (j < 0 || t[j].sortOrder <= x.sortOrder)
    ensures InsertLast(t[..j + 1], x) == t[..j + 1] + [x]
  {
    if j >= 0 {
      assert t[..j + 1][j] == t[j];
    }
  }

  /** Filling the hole at j + 1 with x leaves the inserted prefix followed by the untouched rest. */
  lemma Place(t: seq<Lesson>, rest: seq<Lesson>, j: int, y: Lesson, x: Lesson, cur: seq<Lesson>)
    requires -1 <= j < |t| && cur == t[..j + 1] + [y] + t[j + 1..] + rest
    ensures var r := cur[j + 1 := x];
            r[..|t| + 1] == t[..j + 1] + [x] + t[j + 1..] && r[|t| + 1..] == rest
  {
    var r := cur[j + 1 := x];
    assert r == (t[..j + 1] + [x] + t[j + 1..]) + rest;
  }

  predicate AtMost(s: seq<Lesson>, bound: int)
  {
    forall i :: 0 <= i < |s| ==> s[i].sortOrder <= bound
  }

  lemma {:induction false} InsertLastBound(t: seq<Lesson>, x: Lesson, bound: int)
    requires AtMost(t, bound) && x.sortOrder <= bound
    ensures AtMost(InsertLast(t, x), bound)
  {
    if t != [] && t[|t| - 1].sortOrder > x.sortOrder {
      InsertLastBound(t[..|t| - 1], x, bound);
    }
  }

  /** Each insertion step keeps the list sorted. */
  lemma {:induction false} InsertLastSorted(t: seq<Lesson>, x: Lesson)
    requires SortedByOrder(t)
    ensures SortedByOrder(InsertLast(t, x))
  {
    if t != [] && t[|t| - 1].sortOrder > x.sortOrder {
      var init, last := t[..|t| - 1], t[|t| - 1];
      InsertLastSorted(init, x);
      InsertLastBound(init, x, last.sortOrder);
    }
  }

  /** Each insertion step adds `x` and keeps everything else. */
  lemma {:induction false} InsertLastPermutes(t: seq<Lesson>, x: Lesson)
    ensures multiset(InsertLast(t, x)) == multiset(t) + multiset{x}
  {
    if t != [] && t[|t| - 1].sortOrder > x.sortOrder {
      var init := t[..|t| - 1];
      InsertLastPermutes(init, x);
      assert t == init + [t[|t| - 1]];
    }
  }

  /** The sorted result is ordered by sortOrder and holds the same lessons, each as often. */
  lemma {:induction false} SortSpecSorted(s: seq<Lesson>)
    ensures SortedByOrder(SortSpec(s))
    ensures multiset(SortSpec(s)) == multiset(s)
  {
    if s != [] {
      var init := s[..|s| - 1];
      SortSpecSorted(init);
      InsertLastSorted(SortSpec(init), s[|s| - 1]);
      InsertLastPermutes(SortSpec(init), s[|s| - 1]);
      assert s == init + [s[|s| - 1]];
    }
  }

  function OrderIs(k: int): Lesson -> bool
  {
    (l: Lesson) => l.sortOrder == k
  }

  /** Insertion only moves `x` past entries with a larger sortOrder, so among the entries
      with any one sortOrder it lands last. */
  lemma {:induction false} InsertLastStable(t: seq<Lesson>, x: Lesson, k: int)
    ensures Filter(InsertLast(t, x), OrderIs(k)) == Filter(t, OrderIs(k)) + Filter([x], OrderIs(k))
  {
    var p := OrderIs(k);
    if t == [] || t[|t| - 1].sortOrder <= x.sortOrder {
      FilterAppend(t, [x], p);
    } else {
      var init, last := t[..|t| - 1], t[|t| - 1];
      InsertLastStable(init, x, k);
      FilterAppend(InsertLast(init, x), [last], p);
      assert t == init + [last];
      FilterAppend(init, [last], p);
      assert Filter([x], p) == [] || Filter([last], p) == [];
    }
  }

  /** Stability: lessons sharing a sortOrder keep their stored order. */
  lemma {:induction false} SortSpecStable(s: seq<Lesson>, k: int)
    ensures Filter(SortSpec(s), OrderIs(k)) == Filter(s, OrderIs(k))
  {
    if s != [] {
      var init := s[..|s| - 1];
      SortSpecStable(init, k);
      InsertLastStable(SortSpec(init), s[|s| - 1], k);
      assert s == init + [s[|s| - 1]];
      FilterAppend(init, [s[|s| - 1]], OrderIs(k));
    }
  }

  // ---------------------------------------------------------------------------
  // The handler

  /** GET /api/lessons. An `id` wins over a `slug`; otherwise the filtered lessons come back
      sorted, with their count. */
  method Get(lessons: seq<Lesson>, q: Query) returns (r: Reply<Lessons>)
    ensures q.id != "" ==>
              (r.Ok? <==> exists l :: l in lessons && l.id == q.id) &&
              (r.Ok? ==> r.status == 200 && r.data.One? && IsFirst(lessons, IdIs(q.id), r.data.lesson)) &&
              (r.Err? ==> r == Err(404, NotFound))
    ensures q.id == "" && q.slug != "" ==>
              (r.Ok? <==> exists l :: l in lessons && l.slug == q.slug) &&
              (r.Ok? ==> r.status == 200 && r.data.One? && IsFirst(lessons, SlugIs(q.slug), r.data.lesson)) &&
              (r.Err? ==> r == Err(404, NotFound))
    ensures q.id == "" && q.slug == "" ==>
              var data := SortSpec(Filter(lessons, MatchesQuery(q)));
              r == Ok(200, Listing(data, |data|, Echo(q)))
  {
    if q.id != "" {
      var lesson := Find(lessons, IdIs(q.id));
      FindIsFirst(lessons, IdIs(q.id));
      if lesson.None? {
        assert forall l :: l in lessons ==> !IdIs(q.id)(l);
        return Err(404, NotFound);
      }
      return Ok(200, One(lesson.value));
    }
    if q.slug != "" {
      var lesson := Find(lessons, SlugIs(q.slug));
      FindIsFirst(lessons, SlugIs(q.slug));
      if lesson.None? {
        assert forall l :: l in lessons ==> !SlugIs(q.slug)(l);
        return Err(404, NotFound);
      }
      return Ok(200, One(lesson.value));
    }
    var filteredLessons := Filtered(lessons, q);
    FilteredIsConjunction(lessons, q);
    var a := new Lesson[|filteredLessons|](i requires 0 <= i < |filteredLessons| => filteredLessons[i]);
    assert a[..] == filteredLessons;
    SortBySortOrder(a);
    return Ok(200, Listing(a[..], a.Length, Echo(q)));
  }

  /** What a listing holds: exactly the stored lessons that pass every filter, each as often as
      stored, in ascending sortOrder, with ties in stored order. */
  lemma ListingIsSortedSelection(lessons: seq<Lesson>, q: Query)
    ensures var data := SortSpec(Filter(lessons, MatchesQuery(q)));
            SortedByOrder(data) &&
            multiset(data) == multiset(Filter(lessons, MatchesQuery(q))) &&
            (forall l :: l in data <==> l in lessons && Matches(l, q)) &&
            forall k :: Filter(data, OrderIs(k)) == Filter(Filter(lessons, MatchesQuery(q)), OrderIs(k))
  {
    var filtered := Filter(lessons, MatchesQuery(q));
    var data := SortSpec(filtered);
    SortSpecSorted(filtered);
    FilterMembers(lessons, MatchesQuery(q));
    forall l
      ensures l in data <==> l in filtered
    {
      assert l in data <==> l in multiset(data);
    }
    forall k
      ensures Filter(data, OrderIs(k)) == Filter(filtered, OrderIs(k))
    {
      SortSpecStable(filtered, k);
    }
  }
}
