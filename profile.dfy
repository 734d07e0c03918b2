/** The profile page (app/profile/page.tsx) once its three fetches have answered: the user's
    bookmarks enriched by a search of the category tree, the user's progress enriched with
    question titles, the counts shown as statistics, and the role label and badge colour.
    The category tree is the one the migration in Flatten reads. */
module ProfilePage {
  import opened Common
  import opened Records
  import Flatten
  import Bookmarks
  import ProgressRoute
  import UsersRoute

  // ---------------------------------------------------------------------------
  // Bookmark enrichment

  /** A book of the category tree together with the subject and the grade it sits under. */
  datatype Place = Place(subject: Flatten.SubjectNode, grade: Flatten.GradeNode, book: Flatten.BookNode)

  function BookIs(bookId: string): Flatten.BookNode -> bool
  {
    (b: Flatten.BookNode) => b.id == bookId
  }

  function PlaceIs(bookId: string): Place -> bool
  {
    (p: Place) => p.book.id == bookId
  }

  /** Every book of the tree with its subject and grade, subject by subject and grade by grade:
      the order in which the page's nested loops visit them. */
  function GradePlaces(s: Flatten.SubjectNode, g: Flatten.GradeNode): seq<Place>
  {
    seq(|g.children|, i requires 0 <= i < |g.children| => Place(s, g, g.children[i]))
  }

  function SubjectPlaces(s: Flatten.SubjectNode, grades: seq<Flatten.GradeNode>): seq<Place>
  {
    if grades == [] then [] else GradePlaces(s, grades[0]) + SubjectPlaces(s, grades[1..])
  }

  function Places(tree: seq<Flatten.SubjectNode>): seq<Place>
  {
    if tree == [] then [] else SubjectPlaces(tree[0], tree[0].children) + Places(tree[1..])
  }

  /** The search as the loops run it: grade by grade, `grade.children.find(...)`, stopping at
      the first grade that has the book. */
  function HitInGrades(s: Flatten.SubjectNode, grades: seq<Flatten.GradeNode>, bookId: string): Option<Place>
  {
    if grades == [] then None
    else
      var b := Find(grades[0].children, BookIs(bookId));
      if b.Some? then Some(Place(s, grades[0], b.value)) else HitInGrades(s, grades[1..], bookId)
  }

  /** Subject by subject, stopping at the first subject with a hit. */
  function HitInTree(tree: seq<Flatten.SubjectNode>, bookId: string): Option<Place>
  {
    if tree == [] then None
    else
      var h := HitInGrades(tree[0], tree[0].children, bookId);
      if h.Some? then h else HitInTree(tree[1..], bookId)
  }

  lemma GradeHitIsFirstPlace(s: Flatten.SubjectNode, g: Flatten.GradeNode, bookId: string)
    ensures Find(GradePlaces(s, g), PlaceIs(bookId)) ==
              match Find(g.children, BookIs(bookId))
              case None => None
              case Some(b) => Some(Place(s, g, b))
  {
    FindIndexSame(GradePlaces(s, g), PlaceIs(bookId), g.children, BookIs(bookId));
  }

  lemma {:induction false} SubjectHitIsFirstPlace(s: Flatten.SubjectNode, grades: seq<Flatten.GradeNode>,
                                                  bookId: string)
    ensures HitInGrades(s, grades, bookId) == Find(SubjectPlaces(s, grades), PlaceIs(bookId))
  {
    if grades != [] {
      GradeHitIsFirstPlace(s, grades[0], bookId);
      SubjectHitIsFirstPlace(s, grades[1..], bookId);
      FindAppend(GradePlaces(s, grades[0]), SubjectPlaces(s, grades[1..]), PlaceIs(bookId));
    }
  }

  /** The nested search with its breaks finds exactly the first book with the id in
      subject-then-grade traversal order. */
  lemma {:induction false} HitIsFirstPlace(tree: seq<Flatten.SubjectNode>, bookId: string)
    ensures HitInTree(tree, bookId) == Find(Places(tree), PlaceIs(bookId))
  {
    if tree != [] {
      SubjectHitIsFirstPlace(tree[0], tree[0].children, bookId);
      HitIsFirstPlace(tree[1..], bookId);
      FindAppend(SubjectPlaces(tree[0], tree[0].children), Places(tree[1..]), PlaceIs(bookId));
    }
  }

  lemma {:induction false} SubjectPlacesMembers(s: Flatten.SubjectNode, grades: seq<Flatten.GradeNode>)
    ensures forall p :: p in SubjectPlaces(s, grades) <==>
                          p.subject == s && p.grade in grades && p.book in p.grade.children
  {
    if grades != [] {
      SubjectPlacesMembers(s, grades[1..]);
      var g := grades[0];
      forall p: Place | p.subject == s && p.grade == g && p.book in g.children
        ensures p in GradePlaces(s, g)
      {
        var i :| 0 <= i < |g.children| && g.children[i] == p.book;
        assert GradePlaces(s, g)[i] == p;
      }
      assert forall x :: x in grades <==> x == g || x in grades[1..];
    }
  }

  /** The places are exactly the (subject, grade, book) triples of the tree. */
  lemma {:induction false} PlacesMembers(tree: seq<Flatten.SubjectNode>)
    ensures forall p :: p in Places(tree) <==>
                          p.subject in tree && p.grade in p.subject.children && p.book in p.grade.children
  {
    if tree != [] {
      PlacesMembers(tree[1..]);
      SubjectPlacesMembers(tree[0], tree[0].children);
      assert forall x :: x in tree <==> x == tree[0] || x in tree[1..];
    }
  }

  /** A bookmark as the page lists it: unchanged, or with the name of its book and the names
      of the subject and grade above that book. */
  datatype BookmarkView =
    | Plain(bookmark: Bookmark)
    | Detailed(bookmark: Bookmark, bookName: string, subject: string, grade: string)

  function DetailsAt(bookmark: Bookmark, p: Place): BookmarkView
  {
    Detailed(bookmark, p.book.name, p.subject.name, p.grade.name)
  }

  /** What the enrichment of one bookmark yields; `categories` is None when the response has
      no `categories` key. */
  function ViewOf(bookmark: Bookmark, categories: Option<seq<Flatten.SubjectNode>>): (r: BookmarkView)
    ensures r.bookmark == bookmark
    ensures r.Detailed? <==>
              categories.Some? && exists p :: p in Places(categories.value) && p.book.id == bookmark.bookId
    ensures r.Detailed? ==>
              exists p :: IsFirst(Places(categories.value), PlaceIs(bookmark.bookId), p) &&
                          r == DetailsAt(bookmark, p)
  {
    if categories.None? then Plain(bookmark)
    else
      var tree := categories.value;
      HitIsFirstPlace(tree, bookmark.bookId);
      FindIsFirst(Places(tree), PlaceIs(bookmark.bookId));
      assert forall p :: PlaceIs(bookmark.bookId)(p) == (p.book.id == bookmark.bookId);
      match HitInTree(tree, bookmark.bookId)
      case None => Plain(bookmark)
      case Some(p) => DetailsAt(bookmark, p)
  }

  /** The nested `for` loops with their two `break`s, for one bookmark. */
  method EnrichBookmark(bookmark: Bookmark, categories: Option<seq<Flatten.SubjectNode>>)
    returns (view: BookmarkView)
    ensures view == ViewOf(bookmark, categories)
  {
    var details: Option<BookmarkView> := None;
    if categories.Some? {
      var tree := categories.value;
      var id := bookmark.bookId;
      var i := 0;
      while i < |tree|
        invariant 0 <= i <= |tree|
        invariant details.None?
        invariant HitInTree(tree, id) == HitInTree(tree[i..], id)
      {
        var subject := tree[i];
        var j := 0;
        while j < |subject.children|
          invariant 0 <= j <= |subject.children|
          invariant details.None?
          invariant HitInGrades(subject, subject.children, id) == HitInGrades(subject, subject.children[j..], id)
        {
          var grade := subject.children[j];
          var book := Find(grade.children, BookIs(id));
          if book.Some? {
            details := Some(Detailed(bookmark, book.value.name, subject.name, grade.name));
            break;
          }
          assert subject.children[j..][1..] == subject.children[j + 1..];
          j := j + 1;
        }
        assert details.Some? ==>
                 HitInGrades(subject, subject.children, id).Some? &&
                 details == Some(DetailsAt(bookmark, HitInGrades(subject, subject.children, id).value));
        assert details.None? ==> HitInGrades(subject, subject.children, id).None?;
        assert tree[i..][0] == subject && tree[i..][1..] == tree[i + 1..];
        if details.Some? {
          break;
        }
        i := i + 1;
      }
    }
    view := if details.Some? then details.value else Plain(bookmark);
  }

  /** `bookmarksData.bookmarks?.map(...)`: one view per bookmark, in order. */
  method BookmarksWithDetails(bookmarks: seq<Bookmark>, categories: Option<seq<Flatten.SubjectNode>>)
    returns (views: seq<BookmarkView>)
    ensures |views| == |bookmarks|
    ensures forall i :: 0 <= i < |bookmarks| ==> views[i] == ViewOf(bookmarks[i], categories)
  {
    views := [];
    for i := 0 to |bookmarks|
      invariant |views| == i
      invariant forall k :: 0 <= k < i ==> views[k] == ViewOf(bookmarks[k], categories)
    {
      var view := EnrichBookmark(bookmarks[i], categories);
      views := views + [view];
    }
  }

  /** The aggregate of GET /api/solve carries no `categories` key, so every bookmark is
      listed as it was fetched. */
  lemma WithoutCategoriesNothingIsEnriched(bookmarks: seq<Bookmark>, views: seq<BookmarkView>)
    requires |views| == |bookmarks|
    requires forall i :: 0 <= i < |bookmarks| ==> views[i] == ViewOf(bookmarks[i], None)
    ensures forall i :: 0 <= i < |views| ==> views[i] == Plain(bookmarks[i])
  {
    forall i | 0 <= i < |views|
      ensures views[i] == Plain(bookmarks[i])
    {
      var r := ViewOf(bookmarks[i], None);
      assert r.Plain? && r.bookmark == bookmarks[i];
    }
  }

  // ---------------------------------------------------------------------------
  // Progress enrichment

  /** A progress entry with `questionTitle` and `questionContent` added; None is undefined. */
  datatype ProgressView = ProgressView(entry: Progress, questionTitle: Option<string>,
                                       questionContent: Option<string>)

  function QuestionIs(id: string): Question -> bool
  {
    (q: Question) => q.id == id
  }

  /** `question?.title || prog.questionId` and `question?.content`, where `question` is the
      first question whose id is the entry's `questionId`. */
  function ProgressViewOf(questions: seq<Question>, prog: Progress): (r: ProgressView)
    ensures r.entry == prog
    ensures r.questionContent.Some? <==>
              prog.questionId.Some? && exists q :: q in questions && q.id == prog.questionId.value
    ensures r.questionContent.Some? ==>
              exists q :: IsFirst(questions, QuestionIs(prog.questionId.value), q) &&
                          r.questionContent == Some(q.content) &&
                          r.questionTitle == (if q.title.Some? && q.title.value != "" then q.title
                                              else prog.questionId)
    ensures r.questionContent.None? ==> r.questionTitle == prog.questionId
  {
    if prog.questionId.None? then ProgressView(prog, None, None)
    else
      var id := prog.questionId.value;
      FindIsFirst(questions, QuestionIs(id));
      assert forall q :: QuestionIs(id)(q) == (q.id == id);
      match Find(questions, QuestionIs(id))
      case None => ProgressView(prog, prog.questionId, None)
      case Some(q) =>
        ProgressView(prog, if q.title.Some? && q.title.value != "" then q.title else prog.questionId,
                     Some(q.content))
  }

  function EnrichProgress(entries: seq<Progress>, questions: seq<Question>): (r: seq<ProgressView>)
    ensures |r| == |entries| && forall i :: 0 <= i < |r| ==> r[i].entry == entries[i]
    ensures forall i :: 0 <= i < |r| ==> r[i] == ProgressViewOf(questions, entries[i])
  {
    seq(|entries|, i requires 0 <= i < |entries| => ProgressViewOf(questions, entries[i]))
  }

  // ---------------------------------------------------------------------------
  // Reading the GET /api/progress body

  /** The page reads the progress list under `progress`; the body keeps it under `data`. */
  const ReadKey := "progress"
  const DataKey := "data"

  /** The array the body of GET /api/progress holds under `key`: the list paths put one under
      `data` and nowhere else; the single-entry path puts an entry or null there. */
  function BodyArray(body: ProgressRoute.Answer, key: string): Option<seq<Progress>>
  {
    match body
    case Entries(data, _) => if key == DataKey then Some(data) else None
    case Entry(_) => None
  }

  /** `body[key]?.filter(p => p.status === 'completed').length || 0`. */
  function CompletedCount(body: ProgressRoute.Answer, key: string): nat
  {
    match BodyArray(body, key)
    case None => 0
    case Some(entries) => |Filter(entries, UsersRoute.Completed())|
  }

  /** `body[key]?.map(...) || []`. */
  function UserProgress(body: ProgressRoute.Answer, key: string, questions: seq<Question>): seq<ProgressView>
  {
    match BodyArray(body, key)
    case None => []
    case Some(entries) => EnrichProgress(entries, questions)
  }

  /** The three counts on the page. */
  datatype PageStats = PageStats(completedQuestions: nat, totalQuestions: nat, bookmarkedBooks: nat)

  function StatsOf(body: ProgressRoute.Answer, key: string, questions: seq<Question>,
                   bookmarks: seq<Bookmark>): PageStats
  {
    PageStats(CompletedCount(body, key), |questions|, |bookmarks|)
  }

  /** As written, the page reads a key the body never has: whatever the user completed, the
      count is 0 and the progress list is empty. */
  lemma ProgressNeverShown(progress: seq<Progress>, userId: string, questions: seq<Question>)
    ensures var body := ProgressRoute.Get(progress, userId, "");
            CompletedCount(body, ReadKey) == 0 && UserProgress(body, ReadKey, questions) == []
  {
  }

  /** One completed lesson, and the page still reports none, where GET /api/users counts one. */
  lemma CompletedLessonNotCounted()
    ensures var u := User("u1", "an", "pw", "An", "student", "");
            var progress := [Progress("up1", "u1", "l1", None, "completed", false, "t")];
            CompletedCount(ProgressRoute.Get(progress, u.id, ""), ReadKey) == 0 &&
            UsersRoute.ProfileOf(u, progress, []).stats.totalCompleted == 1
  {
    var u := User("u1", "an", "pw", "An", "student", "");
    var progress := [Progress("up1", "u1", "l1", None, "completed", false, "t")];
    ProgressNeverShown(progress, u.id, []);
    assert Filter(progress, UsersRoute.ProgressOf(u.id)) == progress;
    assert Filter(progress, UsersRoute.Completed()) == progress;
  }

  /** Reading `data` instead, the page lists exactly the user's progress entries and shows
      the same counts GET /api/users computes for that user. */
  lemma ReadingDataMatchesUserStats(u: User, progress: seq<Progress>, allBookmarks: seq<Bookmark>,
                                    questions: seq<Question>)
    requires u.id != ""
    ensures var body := ProgressRoute.Get(progress, u.id, "");
            var profile := UsersRoute.ProfileOf(u, progress, allBookmarks);
            var views := UserProgress(body, DataKey, questions);
            StatsOf(body, DataKey, questions, Bookmarks.Get(allBookmarks, u.id)) ==
              PageStats(profile.stats.totalCompleted, |questions|, profile.stats.totalBookmarks) &&
            |views| == |profile.progress| &&
            forall i :: 0 <= i < |views| ==> views[i].entry == profile.progress[i]
  {
    FilterSame(progress, ProgressRoute.OfUser(u.id), UsersRoute.ProgressOf(u.id));
    FilterSame(allBookmarks, Bookmarks.OfUser(u.id), UsersRoute.BookmarkOf(u.id));
  }

  // ---------------------------------------------------------------------------
  // Roles

  predicate KnownRole(role: string)
  {
    role == "student" || role == "teacher" || role == "admin"
  }

  /** The label shown for a role: an emoji and a Vietnamese name for the three known roles,
      the role itself otherwise. */
  function RoleLabel(role: string): (text: string)
    ensures text == role <==> !KnownRole(role)
  {
    match role
    case "student" => "\U{1F468}\U{200D}\U{1F393} Học sinh"
    case "teacher" => "\U{1F468}\U{200D}\U{1F3EB} Giáo viên"
    case "admin" => "\U{1F468}\U{200D}\U{1F4BC} Quản trị viên"
    case _ => role
  }

  const Gray := "bg-gray-100 text-gray-700"

  /** The badge classes: one colour per known role, gray for every other role. */
  function RoleBadgeColor(role: string): (color: string)
    ensures color == Gray <==> !KnownRole(role)
  {
    match role
    case "student" => "bg-blue-100 text-blue-700"
    case "teacher" => "bg-green-100 text-green-700"
    case "admin" => "bg-purple-100 text-purple-700"
    case _ => Gray
  }

  /** The three known roles get three different labels and three different colours. */
  lemma KnownRolesAreTellable(a: string, b: string)
    requires KnownRole(a) && KnownRole(b) && a != b
    ensures RoleLabel(a) != RoleLabel(b) && RoleBadgeColor(a) != RoleBadgeColor(b)
  {
  }
}
