/** GET /api/books (app/api/books/route.ts): one book by id or by slug, or a page of the books
    that pass every given filter. A query parameter that is absent or empty is "". */
module BooksRoute {
  import opened Common
  import opened Records

  datatype Query = Query(id: string, slug: string, subjectId: string, gradeId: string,
                         publisher: string, page: string, limit: string)

  /** The `filters` echo: each filter that was applied, with its value. */
  datatype Filters = Filters(subjectId: Option<string>, gradeId: Option<string>,
                             publisher: Option<string>)

  /** `meta` of a listing; None stands for a number JSON writes as null (NaN or an infinity). */
  datatype Meta = Meta(total: nat, page: Option<int>, limit: Option<int>,
                       totalPages: Option<int>, filters: Filters)

  datatype Books = One(book: Book) | Listing(data: seq<Book>, meta: Meta)

  const NotFound := "Book not found"

  function IdIs(id: string): Book -> bool { (b: Book) => b.id == id }
  function SlugIs(slug: string): Book -> bool { (b: Book) => b.slug == slug }
  function SubjectIs(subjectId: string): Book -> bool { (b: Book) => b.subjectId == subjectId }
  function GradeIs(gradeId: string): Book -> bool { (b: Book) => b.gradeId == gradeId }

  /** `b.publisher.toLowerCase().includes(publisher.toLowerCase())`. */
  function PublisherHas(publisher: string): Book -> bool
  {
    (b: Book) => Includes(Lower(b.publisher), Lower(publisher))
  }

  /** A book passes every filter the query gives. */
  predicate Matches(b: Book, q: Query)
  {
    (q.subjectId == "" || b.subjectId == q.subjectId) &&
    (q.gradeId == "" || b.gradeId == q.gradeId) &&
    (q.publisher == "" || Includes(Lower(b.publisher), Lower(q.publisher)))
  }

  function MatchesQuery(q: Query): Book -> bool
  {
    (b: Book) => Matches(b, q)
  }

  /** The chain of filters, each applied only when its parameter is given. */
  function Filtered(books: seq<Book>, q: Query): seq<Book>
  {
    var bySubject := if q.subjectId != "" then Filter(books, SubjectIs(q.subjectId)) else books;
    var byGrade := if q.gradeId != "" then Filter(bySubject, GradeIs(q.gradeId)) else bySubject;
    if q.publisher != "" then Filter(byGrade, PublisherHas(q.publisher)) else byGrade
  }

  /** The chain keeps, in stored order, exactly the books that pass all filters at once. */
  lemma FilteredIsConjunction(books: seq<Book>, q: Query)
    ensures Filtered(books, q) == Filter(books, MatchesQuery(q))
  {
    var p1 := (b: Book) => q.subjectId == "" || b.subjectId == q.subjectId;
    var p2 := (b: Book) => q.gradeId == "" || b.gradeId == q.gradeId;
    var p3 := (b: Book) => q.publisher == "" || Includes(Lower(b.publisher), Lower(q.publisher));
    var p12 := (b: Book) => p1(b) && p2(b);
    FilterWhen(books, q.subjectId != "", SubjectIs(q.subjectId), p1);
    var bySubject := Filter(books, p1);
    FilterWhen(bySubject, q.gradeId != "", GradeIs(q.gradeId), p2);
    FilterFilter(books, p1, p2, p12);
    var byGrade := Filter(books, p12);
    FilterWhen(byGrade, q.publisher != "", PublisherHas(q.publisher), p3);
    FilterFilter(books, p12, p3, MatchesQuery(q));
  }

  /** Filter soundness and completeness: a book is listed iff it is stored and passes. */
  lemma FilteredMembers(books: seq<Book>, q: Query)
    ensures forall b :: b in Filtered(books, q) <==> b in books && Matches(b, q)
  {
    FilteredIsConjunction(books, q);
    FilterMembers(books, MatchesQuery(q));
  }

  function Echo(q: Query): Filters
  {
    Filters(if q.subjectId != "" then Some(q.subjectId) else None,
            if q.gradeId != "" then Some(q.gradeId) else None,
            if q.publisher != "" then Some(q.publisher) else None)
  }

  /** `parseInt(value || default)`. */
  function Param(value: string, default: string): Option<int>
  {
    ParseInt(if value == "" then default else value)
  }

  /** Without `page` and `limit` the listing shows page 1 of 20 books. */
  lemma DefaultPaging()
    ensures Param("", "1") == Some(1) && Param("", "20") == Some(20)
  {
    assert NatToString(1) == "1";
    ParseIntOfNatToString(1);
    assert NatToString(20) == "20" by {
      assert NatToString(2) == "2";
    }
    ParseIntOfNatToString(20);
  }

  /** `Math.ceil(total / limit)`; NaN (no limit, or 0 / 0) and Infinity (n / 0) are None. */
  function TotalPages(total: nat, limit: Option<int>): (r: Option<int>)
    ensures r.None? <==> limit.None? || limit.value == 0
    ensures r.Some? && limit.value > 0 ==>
              r.value >= 0 && total <= r.value * limit.value < total + limit.value
    ensures r.Some? && limit.value < 0 ==> total + limit.value < r.value * limit.value <= total
  {
    if limit.None? || limit.value == 0 then None
    else if limit.value > 0 then
      var n := limit.value;
      var t := (total + n - 1) / n;
      DivBounds(total + n - 1, n);
      Some(t)
    else
      var n := -limit.value;
      var t := total / n;
      DivBounds(total, n);
      NegMul(t, n);
      Some(-t)
  }

  /** Euclidean division brackets its dividend. */
  lemma DivBounds(x: nat, n: int)
    requires n > 0
    ensures x / n >= 0 && (x / n) * n <= x < (x / n) * n + n
  {
  }

  lemma NegMul(t: int, n: int)
    ensures (-t) * (-n) == t * n
  {
  }

  /** `(page - 1) * limit` and `start + limit`; NaN when either parameter is NaN. */
  function PageStart(page: Option<int>, limit: Option<int>): Option<int>
  {
    if page.Some? && limit.Some? then Some((page.value - 1) * limit.value) else None
  }

  function PageEnd(page: Option<int>, limit: Option<int>): Option<int>
  {
    if page.Some? && limit.Some? then Some((page.value - 1) * limit.value + limit.value) else None
  }

  /** `filteredBooks.slice(start, end)`. */
  function PageOf<T>(s: seq<T>, page: Option<int>, limit: Option<int>): seq<T>
  {
    JsSlice(s, PageStart(page, limit), PageEnd(page, limit))
  }

  function Min(a: int, b: int): int { if a <= b then a else b }

  /** For page, limit >= 1 a page is the window [(page-1)*limit, page*limit) of the list cut
      to its length: at most `limit` books, none after the last page. */
  lemma PageBounds<T>(s: seq<T>, page: int, limit: int)
    requires page >= 1 && limit >= 1
    ensures var start := (page - 1) * limit;
            PageOf(s, Some(page), Some(limit)) ==
              (if start < |s| then s[start..Min(start + limit, |s|)] else [])
    ensures |PageOf(s, Some(page), Some(limit))| <= limit
    ensures page > TotalPages(|s|, Some(limit)).value ==> PageOf(s, Some(page), Some(limit)) == []
  {
    var start := (page - 1) * limit;
    MulMonotone(0, page - 1, limit);
    assert PageStart(Some(page), Some(limit)) == Some(start);
    assert PageEnd(Some(page), Some(limit)) == Some(start + limit);
    var t := TotalPages(|s|, Some(limit)).value;
    if page > t {
      MulMonotone(t, page - 1, limit);
    }
  }

  lemma MulMonotone(a: int, b: int, c: int)
    requires a <= b && c >= 0
    ensures a * c <= b * c
  {
    var d := b - a;
    assert b * c == a * c + d * c;
  }

  /** Pages 1 to n put together. */
  function Pages<T>(s: seq<T>, limit: int, n: nat): seq<T>
    requires limit >= 1
  {
    if n == 0 then [] else Pages(s, limit, n - 1) + PageOf(s, Some(n), Some(limit))
  }

  lemma {:induction false} PagesPrefix<T>(s: seq<T>, limit: int, n: nat)
    requires limit >= 1
    ensures Pages(s, limit, n) == s[..Min(n * limit, |s|)]
  {
    if n > 0 {
      var start := (n - 1) * limit;
      assert n * limit == start + limit;
      MulMonotone(0, n - 1, limit);
      PagesPrefix(s, limit, n - 1);
      PageBounds(s, n, limit);
      PrefixThenWindow(s, start, limit);
    }
  }

  /** The books before a page followed by the page are the books up to the page's end. */
  lemma PrefixThenWindow<T>(s: seq<T>, start: nat, limit: int)
    requires limit >= 1
    ensures s[..Min(start, |s|)] + (if start < |s| then s[start..Min(start + limit, |s|)] else []) ==
            s[..Min(start + limit, |s|)]
  {
    if start < |s| {
      assert s[..start] + s[start..Min(start + limit, |s|)] == s[..Min(start + limit, |s|)];
    }
  }

  /** Concatenating pages 1 .. totalPages gives back the whole filtered list. */
  lemma AllPages<T>(s: seq<T>, limit: int)
    requires limit >= 1
    ensures TotalPages(|s|, Some(limit)).Some? && TotalPages(|s|, Some(limit)).value >= 0
    ensures Pages(s, limit, TotalPages(|s|, Some(limit)).value) == s
  {
    PagesPrefix(s, limit, TotalPages(|s|, Some(limit)).value);
  }

  /** GET /api/books. An `id` wins over a `slug`, and either one ignores filters and paging. */
  function Get(books: seq<Book>, q: Query): (r: Reply<Books>)
    ensures q.id != "" ==>
              (r.Ok? <==> exists b :: b in books && b.id == q.id) &&
              (r.Ok? ==> r.status == 200 && r.data.One? && IsFirst(books, IdIs(q.id), r.data.book)) &&
              (r.Err? ==> r == Err(404, NotFound))
    ensures q.id == "" && q.slug != "" ==>
              (r.Ok? <==> exists b :: b in books && b.slug == q.slug) &&
              (r.Ok? ==> r.status == 200 && r.data.One? && IsFirst(books, SlugIs(q.slug), r.data.book)) &&
              (r.Err? ==> r == Err(404, NotFound))
    ensures q.id == "" && q.slug == "" ==>
              var filtered := Filter(books, MatchesQuery(q));
              var page, limit := Param(q.page, "1"), Param(q.limit, "20");
              r == Ok(200, Listing(PageOf(filtered, page, limit),
                                   Meta(|filtered|, page, limit, TotalPages(|filtered|, limit), Echo(q))))
  {
    var page, limit := Param(q.page, "1"), Param(q.limit, "20");
    if q.id != "" then
      var book := Find(books, IdIs(q.id));
      FindIsFirst(books, IdIs(q.id));
      if book.None? then
        assert forall b :: b in books ==> !IdIs(q.id)(b);
        Err(404, NotFound)
      else
        Ok(200, One(book.value))
    else if q.slug != "" then
      var book := Find(books, SlugIs(q.slug));
      FindIsFirst(books, SlugIs(q.slug));
      if book.None? then
        assert forall b :: b in books ==> !SlugIs(q.slug)(b);
        Err(404, NotFound)
      else
        Ok(200, One(book.value))
    else
      var filteredBooks := Filtered(books, q);
      FilteredIsConjunction(books, q);
      var total := |filteredBooks|;
      Ok(200, Listing(PageOf(filteredBooks, page, limit),
                      Meta(total, page, limit, TotalPages(total, limit), Echo(q))))
  }
}
