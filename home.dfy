/** The home page's data logic (app/page.tsx): books joined with their subject, grade and
    lessons; the search and subject filter; the grouping by subject and grade; the set of
    collapsed grades; and the set of bookmarked books kept in step with /api/bookmarks. */
module HomePage {
  import opened Common
  import opened Records
  import Bookmarks

  /** A book of `allBooks`: the book with the names of its subject and grade and its lessons. */
  datatype ShelfBook = ShelfBook(book: Book, subjectName: string, gradeName: string, children: seq<Lesson>)

  function SubjectIs(subjectId: string): Subject -> bool { (s: Subject) => s.id == subjectId }

  /** The grade must match the book's gradeId and also its subjectId. */
  function GradeOf(b: Book): Grade -> bool
  {
    (g: Grade) => g.id == b.gradeId && g.subjectId == b.subjectId
  }

  function LessonOf(bookId: string): Lesson -> bool { (l: Lesson) => l.bookId == bookId }

  /** One entry of `allBooks`; a missing subject or grade gives the name ''. */
  function Enrich(book: Book, subjects: seq<Subject>, grades: seq<Grade>, lessons: seq<Lesson>): (r: ShelfBook)
    ensures r.book == book
    ensures (forall s :: s in subjects ==> s.id != book.subjectId) ==> r.subjectName == ""
    ensures (exists s :: s in subjects && s.id == book.subjectId) ==>
              exists s :: IsFirst(subjects, SubjectIs(book.subjectId), s) && r.subjectName == s.name
    ensures (forall g :: g in grades ==> !(g.id == book.gradeId && g.subjectId == book.subjectId)) ==>
              r.gradeName == ""
    ensures (exists g :: g in grades && g.id == book.gradeId && g.subjectId == book.subjectId) ==>
              exists g :: IsFirst(grades, GradeOf(book), g) && r.gradeName == g.name
    ensures r.children == Filter(lessons, LessonOf(book.id))
    ensures forall l :: l in r.children <==> l in lessons && l.bookId == book.id
    ensures forall l :: multiset(r.children)[l] == if l.bookId == book.id then multiset(lessons)[l] else 0
  {
    var subject := Find(subjects, SubjectIs(book.subjectId));
    var grade := Find(grades, GradeOf(book));
    FindIsFirst(subjects, SubjectIs(book.subjectId));
    FindIsFirst(grades, GradeOf(book));
    FilterMembers(lessons, LessonOf(book.id));
    FilterCount(lessons, LessonOf(book.id));
    assert forall s :: SubjectIs(book.subjectId)(s) == (s.id == book.subjectId);
    assert forall g :: GradeOf(book)(g) == (g.id == book.gradeId && g.subjectId == book.subjectId);
    ShelfBook(book,
              if subject.Some? then subject.value.name else "",
              if grade.Some? then grade.value.name else "",
              Filter(lessons, LessonOf(book.id)))
  }

  /** `allBooks`: one entry per book, in the books' order. */
  function AllBooks(books: seq<Book>, subjects: seq<Subject>, grades: seq<Grade>, lessons: seq<Lesson>): (r: seq<ShelfBook>)
    ensures |r| == |books|
    ensures forall i :: 0 <= i < |books| ==> r[i].book == books[i]
    ensures forall i :: 0 <= i < |books| ==> r[i] == Enrich(books[i], subjects, grades, lessons)
  {
    seq(|books|, i requires 0 <= i < |books| => Enrich(books[i], subjects, grades, lessons))
  }

  /** The filter of `filteredBooks`: the search text, ignoring case, occurs in the name; and the
      subject is "all", or the id starts with 'bk' and the subject matches. */
  predicate Passes(b: ShelfBook, searchTerm: string, selectedSubject: string)
  {
    (searchTerm == "" || Includes(Lower(b.book.name), Lower(searchTerm))) &&
    (selectedSubject == "all" || ("bk" <= b.book.id && b.book.subjectId == selectedSubject))
  }

  function PassesFn(searchTerm: string, selectedSubject: string): ShelfBook -> bool
  {
    (b: ShelfBook) => Passes(b, searchTerm, selectedSubject)
  }

  function FilteredBooks(allBooks: seq<ShelfBook>, searchTerm: string, selectedSubject: string): (r: seq<ShelfBook>)
    ensures forall b :: b in r <==> b in allBooks && Passes(b, searchTerm, selectedSubject)
  {
    FilterMembers(allBooks, PassesFn(searchTerm, selectedSubject));
    Filter(allBooks, PassesFn(searchTerm, selectedSubject))
  }

  /** With no search text and every subject shown, nothing is filtered out. */
  lemma NoFilterShowsAll(allBooks: seq<ShelfBook>)
    ensures FilteredBooks(allBooks, "", "all") == allBooks
  {
    FilterAll(allBooks, PassesFn("", "all"));
  }

  // ---------------------------------------------------------------------------
  // groupedBooks

  /** `groups[subjectId][gradeId]`. */
  type Groups = map<string, map<string, seq<ShelfBook>>>

  /** One step of the forEach: create the subject's and the grade's entries when missing, then
      push the book. */
  function AddToGroup(groups: Groups, b: ShelfBook): Groups
  {
    var bySubject := if b.book.subjectId in groups then groups[b.book.subjectId] else map[];
    var shelf := if b.book.gradeId in bySubject then bySubject[b.book.gradeId] else [];
    groups[b.book.subjectId := bySubject[b.book.gradeId := shelf + [b]]]
  }

  function GroupSpec(books: seq<ShelfBook>): Groups
  {
    if books == [] then map[] else AddToGroup(GroupSpec(books[..|books| - 1]), books[|books| - 1])
  }

  method GroupBooks(filteredBooks: seq<ShelfBook>) returns (groups: Groups)
    ensures groups == GroupSpec(filteredBooks)
  {
    groups := map[];
    for i := 0 to |filteredBooks|
      invariant groups == GroupSpec(filteredBooks[..i])
    {
      var book := filteredBooks[i];
      assert filteredBooks[..i + 1][..i] == filteredBooks[..i];
      var subjectId, gradeId := book.book.subjectId, book.book.gradeId;
      var bySubject := if subjectId in groups then groups[subjectId] else map[];
      var shelf := if gradeId in bySubject then bySubject[gradeId] else [];
      groups := groups[subjectId := bySubject[gradeId := shelf + [book]]];
    }
    assert filteredBooks[..|filteredBooks|] == filteredBooks;
  }

  function InGroup(subjectId: string, gradeId: string): ShelfBook -> bool
  {
    (b: ShelfBook) => b.book.subjectId == subjectId && b.book.gradeId == gradeId
  }

  function OfSubject(subjectId: string): ShelfBook -> bool
  {
    (b: ShelfBook) => b.book.subjectId == subjectId
  }

  /** Each book lands in exactly its own subject and grade, in its relative order: a group
      exists iff some book belongs to it, and then it holds exactly those books. */
  lemma {:induction false} GroupsAreFilters(books: seq<ShelfBook>, subjectId: string, gradeId: string)
    ensures var groups := GroupSpec(books);
            (subjectId in groups <==> Filter(books, OfSubject(subjectId)) != []) &&
            (subjectId in groups && gradeId in groups[subjectId] <==>
               Filter(books, InGroup(subjectId, gradeId)) != []) &&
            (subjectId in groups && gradeId in groups[subjectId] ==>
               groups[subjectId][gradeId] == Filter(books, InGroup(subjectId, gradeId)))
  {
    if books != [] {
      var init, b := books[..|books| - 1], books[|books| - 1];
      GroupsAreFilters(init, subjectId, gradeId);
      assert books == init + [b];
      assert GroupSpec(books) == AddToGroup(GroupSpec(init), b);
      FilterAppend(init, [b], OfSubject(subjectId));
      FilterAppend(init, [b], InGroup(subjectId, gradeId));
      assert Filter([b], OfSubject(subjectId)) == if OfSubject(subjectId)(b) then [b] else [];
      assert Filter([b], InGroup(subjectId, gradeId)) == if InGroup(subjectId, gradeId)(b) then [b] else [];
      AddToGroupAt(GroupSpec(init), b, subjectId, gradeId);
    }
  }

  /** What one push does to the group of a given subject and grade. */
  lemma AddToGroupAt(groups: Groups, b: ShelfBook, subjectId: string, gradeId: string)
    ensures var r := AddToGroup(groups, b);
            (subjectId in r <==> subjectId in groups || OfSubject(subjectId)(b)) &&
            (subjectId in r && gradeId in r[subjectId] <==>
               (subjectId in groups && gradeId in groups[subjectId]) || InGroup(subjectId, gradeId)(b)) &&
            (subjectId in r && gradeId in r[subjectId] ==>
               r[subjectId][gradeId] ==
                 (if subjectId in groups && gradeId in groups[subjectId] then groups[subjectId][gradeId] else []) +
                 (if InGroup(subjectId, gradeId)(b) then [b] else []))
  {
  }

  // ---------------------------------------------------------------------------
  // Sets of ids

  /** `toggleGrade`: copy the set, then delete the id if present, else add it. */
  function Toggle(ids: set<string>, id: string): (r: set<string>)
    ensures id in r <==> id !in ids
    ensures forall x :: x != id ==> (x in r <==> x in ids)
  {
    if id in ids then ids - {id} else ids + {id}
  }

  /** Toggling the same grade twice changes nothing. */
  lemma ToggleTwice(ids: set<string>, id: string)
    ensures Toggle(Toggle(ids, id), id) == ids
  {
  }

  /** The bookmark set after `handleToggleBookmark`: a bookmarked book is removed when the
      DELETE succeeds, any other book is added when the POST succeeds; a failed request
      changes nothing. */
  function AfterToggleBookmark(bookmarked: set<string>, bookId: string, ok: bool): (r: set<string>)
    ensures ok ==> r == Toggle(bookmarked, bookId)
    ensures !ok ==> r == bookmarked
  {
    if bookId in bookmarked then (if ok then bookmarked - {bookId} else bookmarked)
    else (if ok then bookmarked + {bookId} else bookmarked)
  }

  /** The set loaded from GET /api/bookmarks?userId=: the user's bookmarked book ids. */
  function BookmarkedIds(bookmarks: seq<Bookmark>, userId: string): set<string>
  {
    set b | b in Bookmarks.Get(bookmarks, userId) :: b.bookId
  }

  /** The page's set stays equal to what the server holds: if it was loaded from the stored
      bookmarks, a toggle whose request succeeds (DELETE of a present pair, POST of an absent
      one) leaves it equal to the set the written list would give. */
  lemma ToggleStaysInSync(bookmarks: seq<Bookmark>, userId: string, bookId: string, stamp: nat, now: string)
    requires userId != "" && bookId != "" && Bookmarks.UniquePairs(bookmarks)
    ensures var bookmarked := BookmarkedIds(bookmarks, userId);
            var after := AfterToggleBookmark(bookmarked, bookId, true);
            if bookId in bookmarked
            then Bookmarks.HasPair(bookmarks, userId, bookId) &&
                 after == BookmarkedIds(Bookmarks.WithoutFirst(bookmarks, userId, bookId), userId)
            else !Bookmarks.HasPair(bookmarks, userId, bookId) &&
                 after == BookmarkedIds(bookmarks + [Bookmark("ub" + NatToString(stamp), userId, bookId, now)], userId)
  {
    var bookmarked := BookmarkedIds(bookmarks, userId);
    LoadedSetHasPair(bookmarks, userId, bookId);
    if bookId in bookmarked {
      DeleteSync(bookmarks, userId, bookId);
    } else {
      PostSync(bookmarks, Bookmark("ub" + NatToString(stamp), userId, bookId, now));
    }
  }

  lemma LoadedSetHasPair(bookmarks: seq<Bookmark>, userId: string, bookId: string)
    requires userId != ""
    ensures Bookmarks.HasPair(bookmarks, userId, bookId) <==> bookId in BookmarkedIds(bookmarks, userId)
  {
    if Bookmarks.HasPair(bookmarks, userId, bookId) {
      var i :| 0 <= i < |bookmarks| && Bookmarks.SamePair(bookmarks[i], userId, bookId);
      assert bookmarks[i] in bookmarks;
    }
  }

  lemma DeleteSync(bookmarks: seq<Bookmark>, userId: string, bookId: string)
    requires userId != "" && Bookmarks.UniquePairs(bookmarks) && Bookmarks.HasPair(bookmarks, userId, bookId)
    ensures BookmarkedIds(Bookmarks.WithoutFirst(bookmarks, userId, bookId), userId) ==
            BookmarkedIds(bookmarks, userId) - {bookId}
  {
    Bookmarks.WithoutFirstRemovesFirstMatch(bookmarks, userId, bookId);
    var k :| 0 <= k < |bookmarks| && Bookmarks.SamePair(bookmarks[k], userId, bookId) &&
             Bookmarks.WithoutFirst(bookmarks, userId, bookId) == bookmarks[..k] + bookmarks[k + 1..];
    SpliceSync(bookmarks, userId, bookId, k);
  }

  /** Taking out the entry k of the user's pair takes exactly that book out of the set. */
  lemma SpliceSync(bookmarks: seq<Bookmark>, userId: string, bookId: string, k: nat)
    requires userId != "" && Bookmarks.UniquePairs(bookmarks)
    requires k < |bookmarks| && Bookmarks.SamePair(bookmarks[k], userId, bookId)
    ensures BookmarkedIds(bookmarks[..k] + bookmarks[k + 1..], userId) ==
            BookmarkedIds(bookmarks, userId) - {bookId}
  {
    var rest := bookmarks[..k] + bookmarks[k + 1..];
    SpliceMembers(bookmarks, k);
    IdsMembers(bookmarks, userId);
    IdsMembers(rest, userId);
    forall x | x in BookmarkedIds(bookmarks, userId) - {bookId}
      ensures x in BookmarkedIds(rest, userId)
    {
      var b :| b in bookmarks && b.userId == userId && b.bookId == x;
      assert b in rest;
    }
  }

  lemma IdsMembers(bookmarks: seq<Bookmark>, userId: string)
    requires userId != ""
    ensures forall x :: x in BookmarkedIds(bookmarks, userId) <==>
                        exists b :: b in bookmarks && b.userId == userId && b.bookId == x
  {
    var mine := Bookmarks.Get(bookmarks, userId);
    assert forall b :: b in mine <==> b in bookmarks && b.userId == userId;
  }

  /** With unique pairs, taking out entry k removes exactly the entries with its pair. */
  lemma SpliceMembers(bookmarks: seq<Bookmark>, k: nat)
    requires Bookmarks.UniquePairs(bookmarks) && k < |bookmarks|
    ensures forall b :: b in bookmarks[..k] + bookmarks[k + 1..] <==>
                        b in bookmarks && !Bookmarks.SamePair(b, bookmarks[k].userId, bookmarks[k].bookId)
  {
    SpliceKeepsOthers(bookmarks, k);
    SpliceKeepsOnlyOthers(bookmarks, k);
  }

  lemma SpliceKeepsOthers(bookmarks: seq<Bookmark>, k: nat)
    requires k < |bookmarks|
    ensures forall b :: b in bookmarks && !Bookmarks.SamePair(b, bookmarks[k].userId, bookmarks[k].bookId) ==>
                        b in bookmarks[..k] + bookmarks[k + 1..]
  {
    var rest := bookmarks[..k] + bookmarks[k + 1..];
    forall b | b in bookmarks && !Bookmarks.SamePair(b, bookmarks[k].userId, bookmarks[k].bookId)
      ensures b in rest
    {
      var i :| 0 <= i < |bookmarks| && bookmarks[i] == b;
      if i < k { assert rest[i] == b; } else { assert rest[i - 1] == b; }
    }
  }

  lemma SpliceKeepsOnlyOthers(bookmarks: seq<Bookmark>, k: nat)
    requires Bookmarks.UniquePairs(bookmarks) && k < |bookmarks|
    ensures forall b :: b in bookmarks[..k] + bookmarks[k + 1..] ==>
                        b in bookmarks && !Bookmarks.SamePair(b, bookmarks[k].userId, bookmarks[k].bookId)
  {
    var rest := bookmarks[..k] + bookmarks[k + 1..];
    forall b | b in rest
      ensures b in bookmarks && !Bookmarks.SamePair(b, bookmarks[k].userId, bookmarks[k].bookId)
    {
      var i :| 0 <= i < |rest| && rest[i] == b;
      if i < k {
        assert bookmarks[i] == b;
        assert !Bookmarks.SamePair(bookmarks[k], bookmarks[i].userId, bookmarks[i].bookId);
      } else {
        assert bookmarks[i + 1] == b;
        assert !Bookmarks.SamePair(bookmarks[i + 1], bookmarks[k].userId, bookmarks[k].bookId);
      }
    }
  }

  lemma PostSync(bookmarks: seq<Bookmark>, added: Bookmark)
    requires added.userId != ""
    ensures BookmarkedIds(bookmarks + [added], added.userId) ==
            BookmarkedIds(bookmarks, added.userId) + {added.bookId}
  {
    var userId := added.userId;
    forall x | x in BookmarkedIds(bookmarks + [added], userId)
      ensures x in BookmarkedIds(bookmarks, userId) + {added.bookId}
    {
      var b :| b in Bookmarks.Get(bookmarks + [added], userId) && b.bookId == x;
    }
    assert added in Bookmarks.Get(bookmarks + [added], userId);
  }
}
