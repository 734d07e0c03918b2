/** The one-off migration in scripts/flatten-categories.js: the nested category tree
    (subject → grade → book → lesson) becomes four flat tables whose rows point at their
    parents by id, followed by a pass that counts dangling references. */
module Flatten {
  import opened Common

  // ---------------------------------------------------------------------------
  // The tree. A node without `children` has the empty sequence of them: the script's
  // `if (x.children)` skips the inner loop exactly as an empty array would.

  datatype LessonNode = LessonNode(id: string, name: string)
  datatype BookNode = BookNode(id: string, name: string, children: seq<LessonNode>)
  datatype GradeNode = GradeNode(id: string, name: string, children: seq<BookNode>)
  datatype SubjectNode = SubjectNode(id: string, name: string, children: seq<GradeNode>)

  // ---------------------------------------------------------------------------
  // The four tables.

  datatype FlatSubject = FlatSubject(id: string, name: string, icon: string, sortOrder: int,
                                     isActive: bool)
  datatype FlatGrade = FlatGrade(id: string, subjectId: string, name: string, level: int,
                                 sortOrder: int, isActive: bool)
  datatype FlatBook = FlatBook(id: string, gradeId: string, subjectId: string, name: string,
                               publisher: string, sortOrder: int, isActive: bool)
  datatype FlatLesson = FlatLesson(id: string, bookId: string, gradeId: string, subjectId: string,
                                   name: string, sortOrder: int, isActive: bool)

  datatype Tables = Tables(subjects: seq<FlatSubject>, grades: seq<FlatGrade>,
                           books: seq<FlatBook>, lessons: seq<FlatLesson>)

  // ---------------------------------------------------------------------------
  // Helpers

  const DefaultIcon := "📚"

  /** getSubjectIcon: the icon table's entry for the four known subject names, else the books icon. */
  function SubjectIcon(name: string): (icon: string)
    ensures name !in {"Toán", "Tiếng Việt", "Tiếng Anh", "Khoa học"} <==> icon == DefaultIcon
  {
    match name
    case "Toán" => "🔢"
    case "Tiếng Việt" => "📖"
    case "Tiếng Anh" => "🇺🇸"
    case "Khoa học" => "🔬"
    case _ => DefaultIcon
  }

  /** The text `/\d+/` matches: the first maximal run of decimal digits, or "" when there is none. */
  function FirstDigitRun(s: string): (r: string)
    ensures r == [] <==> forall i :: 0 <= i < |s| ==> !IsDigit(s[i])
    ensures forall i :: 0 <= i < |r| ==> IsDigit(r[i])
  {
    if s == [] then []
    else if IsDigit(s[0]) then Span(s, IsDigit)
    else FirstDigitRun(s[1..])
  }

  /** extractGradeLevel: the value of the first run of digits in the name, else 1. */
  function GradeLevel(name: string): int
  {
    var digits := FirstDigitRun(name);
    if digits == [] then 1 else RadixValue(digits, 10)
  }

  /** A name without digits is level 1. */
  lemma GradeLevelWithoutDigits(name: string)
    requires forall i :: 0 <= i < |name| ==> !IsDigit(name[i])
    ensures GradeLevel(name) == 1
  {
  }

  /** A number written after digit-free text, and not followed by another digit, is the level:
      "Lớp 12" is level 12 and "Lớp 3 - Tập 2" is level 3. */
  lemma {:induction false} GradeLevelOfName(prefix: string, n: nat, suffix: string)
    requires forall i :: 0 <= i < |prefix| ==> !IsDigit(prefix[i])
    requires suffix == [] || !IsDigit(suffix[0])
    ensures GradeLevel(prefix + NatToString(n) + suffix) == n
  {
    FirstRunAfterPrefix(prefix, NatToString(n), suffix);
  }

  lemma {:induction false} FirstRunAfterPrefix(prefix: string, digits: string, suffix: string)
    requires forall i :: 0 <= i < |prefix| ==> !IsDigit(prefix[i])
    requires |digits| > 0 && forall i :: 0 <= i < |digits| ==> IsDigit(digits[i])
    requires suffix == [] || !IsDigit(suffix[0])
    ensures FirstDigitRun(prefix + digits + suffix) == digits
    decreases |prefix|
  {
    var s := prefix + digits + suffix;
    if prefix == [] {
      assert s == digits + suffix;
      SpanPrefix(digits, suffix);
    } else {
      assert s[1..] == prefix[1..] + digits + suffix;
      FirstRunAfterPrefix(prefix[1..], digits, suffix);
    }
  }

  lemma {:induction false} SpanPrefix(digits: string, suffix: string)
    requires forall i :: 0 <= i < |digits| ==> IsDigit(digits[i])
    requires suffix == [] || !IsDigit(suffix[0])
    ensures Span(digits + suffix, IsDigit) == digits
  {
    if digits == [] {
      assert digits + suffix == suffix;
    } else {
      assert (digits + suffix)[1..] == digits[1..] + suffix;
      SpanPrefix(digits[1..], suffix);
    }
  }

  const KetNoi := "Kết nối tri thức"
  const ChanTroi := "Chân trời sáng tạo"
  const CanhDieu := "Cánh diều"
  const UnknownPublisher := "Unknown"

  /** extractPublisher: the first of the three publisher series, in that priority order,
      whose name occurs in the book's name. */
  function Publisher(bookName: string): (p: string)
    ensures p in {KetNoi, ChanTroi, CanhDieu, UnknownPublisher}
    ensures p == KetNoi <==> Includes(bookName, KetNoi)
    ensures p == ChanTroi <==> !Includes(bookName, KetNoi) && Includes(bookName, ChanTroi)
    ensures p == CanhDieu <==>
              !Includes(bookName, KetNoi) && !Includes(bookName, ChanTroi) && Includes(bookName, CanhDieu)
    ensures p != UnknownPublisher ==> Includes(bookName, p)
  {
    if Includes(bookName, KetNoi) then KetNoi
    else if Includes(bookName, ChanTroi) then ChanTroi
    else if Includes(bookName, CanhDieu) then CanhDieu
    else UnknownPublisher
  }

  // ---------------------------------------------------------------------------
  // The rows each node becomes.

  function SubjectRecord(s: SubjectNode): FlatSubject
  {
    FlatSubject(s.id, s.name, SubjectIcon(s.name), 0, true)
  }

  function GradeRecord(s: SubjectNode, g: GradeNode): FlatGrade
  {
    FlatGrade(g.id, s.id, g.name, GradeLevel(g.name), 0, true)
  }

  function BookRecord(s: SubjectNode, g: GradeNode, b: BookNode): FlatBook
  {
    FlatBook(b.id, g.id, s.id, b.name, Publisher(b.name), 0, true)
  }

  function LessonRecord(s: SubjectNode, g: GradeNode, b: BookNode, l: LessonNode): FlatLesson
  {
    FlatLesson(l.id, b.id, g.id, s.id, l.name, 0, true)
  }

  // ---------------------------------------------------------------------------
  // The tables as functions of the tree: at every level, the rows of the children in
  // document order, one after the other.

  /** The concatenation f(xs[0]) + f(xs[1]) + ... */
  function FlatMap<A, B>(xs: seq<A>, f: A -> seq<B>): seq<B>
  {
    if xs == [] then [] else FlatMap(xs[..|xs| - 1], f) + f(xs[|xs| - 1])
  }

  lemma FlatMapStep<A, B>(xs: seq<A>, k: nat, f: A -> seq<B>)
    requires k < |xs|
    ensures FlatMap(xs[..k + 1], f) == FlatMap(xs[..k], f) + f(xs[k])
  {
    assert xs[..k + 1][..k] == xs[..k];
  }

  /** The rows of two forests side by side are the rows of the first, then of the second. */
  lemma {:induction false} FlatMapAppend<A, B>(xs: seq<A>, ys: seq<A>, f: A -> seq<B>)
    ensures FlatMap(xs + ys, f) == FlatMap(xs, f) + FlatMap(ys, f)
    decreases |ys|
  {
    if ys == [] {
      assert xs + ys == xs;
    } else {
      var n := |ys|;
      assert (xs + ys)[..|xs + ys| - 1] == xs + ys[..n - 1];
      FlatMapAppend(xs, ys[..n - 1], f);
    }
  }

  lemma {:induction false} FlatMapMember<A, B>(xs: seq<A>, f: A -> seq<B>, y: B)
    ensures y in FlatMap(xs, f) <==> exists x :: x in xs && y in f(x)
  {
    if xs != [] {
      var n := |xs|;
      FlatMapMember(xs[..n - 1], f, y);
      assert xs == xs[..n - 1] + [xs[n - 1]];
      if exists x :: x in xs && y in f(x) {
        var x :| x in xs && y in f(x);
        if x != xs[n - 1] {
          assert x in xs[..n - 1];
        }
      }
    }
  }

  function SubjectRows(s: SubjectNode): seq<FlatSubject> { [SubjectRecord(s)] }

  function GradeRowOf(s: SubjectNode): GradeNode -> seq<FlatGrade> { g => [GradeRecord(s, g)] }
  function GradeRows(s: SubjectNode): seq<FlatGrade> { FlatMap(s.children, GradeRowOf(s)) }

  function BookRowOf(s: SubjectNode, g: GradeNode): BookNode -> seq<FlatBook> { b => [BookRecord(s, g, b)] }
  function GradeBooks(s: SubjectNode, g: GradeNode): seq<FlatBook> { FlatMap(g.children, BookRowOf(s, g)) }
  function GradeBooksOf(s: SubjectNode): GradeNode -> seq<FlatBook> { g => GradeBooks(s, g) }
  function SubjectBooks(s: SubjectNode): seq<FlatBook> { FlatMap(s.children, GradeBooksOf(s)) }

  function LessonRowOf(s: SubjectNode, g: GradeNode, b: BookNode): LessonNode -> seq<FlatLesson>
  {
    l => [LessonRecord(s, g, b, l)]
  }
  function BookLessons(s: SubjectNode, g: GradeNode, b: BookNode): seq<FlatLesson>
  {
    FlatMap(b.children, LessonRowOf(s, g, b))
  }
  function BookLessonsOf(s: SubjectNode, g: GradeNode): BookNode -> seq<FlatLesson> { b => BookLessons(s, g, b) }
  function GradeLessons(s: SubjectNode, g: GradeNode): seq<FlatLesson> { FlatMap(g.children, BookLessonsOf(s, g)) }
  function GradeLessonsOf(s: SubjectNode): GradeNode -> seq<FlatLesson> { g => GradeLessons(s, g) }
  function SubjectLessons(s: SubjectNode): seq<FlatLesson> { FlatMap(s.children, GradeLessonsOf(s)) }

  /** The four tables the script writes for a tree. */
  function TablesOf(tree: seq<SubjectNode>): Tables
  {
    Tables(FlatMap(tree, SubjectRows), FlatMap(tree, GradeRows), FlatMap(tree, SubjectBooks),
           FlatMap(tree, SubjectLessons))
  }

  // ---------------------------------------------------------------------------
  // The flattening loop, one method per level of nesting. Each pushes onto the tables it
  // is handed and promises exactly the rows of its node, appended in document order.

  method Flattened(tree: seq<SubjectNode>) returns (t: Tables)
    ensures t == TablesOf(tree)
  {
    var subjects, grades, books, lessons := [], [], [], [];
    for i := 0 to |tree|
      invariant subjects == FlatMap(tree[..i], SubjectRows)
      invariant grades == FlatMap(tree[..i], GradeRows)
      invariant books == FlatMap(tree[..i], SubjectBooks)
      invariant lessons == FlatMap(tree[..i], SubjectLessons)
    {
      var s := tree[i];
      subjects := subjects + [SubjectRecord(s)];
      grades, books, lessons := PushGrades(s, grades, books, lessons);
      FlatMapStep(tree, i, SubjectRows);
      FlatMapStep(tree, i, GradeRows);
      FlatMapStep(tree, i, SubjectBooks);
      FlatMapStep(tree, i, SubjectLessons);
    }
    assert tree[..|tree|] == tree;
    t := Tables(subjects, grades, books, lessons);
  }

  /** Appending the rows of node j to a table holding the rows of nodes 0 .. j-1. */
  lemma PushStep<A, B>(acc0: seq<B>, xs: seq<A>, j: nat, f: A -> seq<B>, acc: seq<B>)
    requires j < |xs| && acc == acc0 + FlatMap(xs[..j], f)
    ensures acc + f(xs[j]) == acc0 + FlatMap(xs[..j + 1], f)
  {
    FlatMapStep(xs, j, f);
  }

  method PushGrades(s: SubjectNode, grades0: seq<FlatGrade>, books0: seq<FlatBook>,
                    lessons0: seq<FlatLesson>)
    returns (grades: seq<FlatGrade>, books: seq<FlatBook>, lessons: seq<FlatLesson>)
    ensures grades == grades0 + GradeRows(s)
    ensures books == books0 + SubjectBooks(s)
    ensures lessons == lessons0 + SubjectLessons(s)
  {
    grades, books, lessons := grades0, books0, lessons0;
    for j := 0 to |s.children|
      invariant grades == grades0 + FlatMap(s.children[..j], GradeRowOf(s))
      invariant books == books0 + FlatMap(s.children[..j], GradeBooksOf(s))
      invariant lessons == lessons0 + FlatMap(s.children[..j], GradeLessonsOf(s))
    {
      var g := s.children[j];
      PushStep(grades0, s.children, j, GradeRowOf(s), grades);
      PushStep(books0, s.children, j, GradeBooksOf(s), books);
      PushStep(lessons0, s.children, j, GradeLessonsOf(s), lessons);
      assert GradeRowOf(s)(g) == [GradeRecord(s, g)];
      assert GradeBooksOf(s)(g) == GradeBooks(s, g);
      assert GradeLessonsOf(s)(g) == GradeLessons(s, g);
      grades := grades + [GradeRecord(s, g)];
      books, lessons := PushBooks(s, g, books, lessons);
    }
    assert s.children[..|s.children|] == s.children;
  }

  method PushBooks(s: SubjectNode, g: GradeNode, books0: seq<FlatBook>, lessons0: seq<FlatLesson>)
    returns (books: seq<FlatBook>, lessons: seq<FlatLesson>)
    ensures books == books0 + GradeBooks(s, g)
    ensures lessons == lessons0 + GradeLessons(s, g)
  {
    books, lessons := books0, lessons0;
    for k := 0 to |g.children|
      invariant books == books0 + FlatMap(g.children[..k], BookRowOf(s, g))
      invariant lessons == lessons0 + FlatMap(g.children[..k], BookLessonsOf(s, g))
    {
      var b := g.children[k];
      PushStep(books0, g.children, k, BookRowOf(s, g), books);
      PushStep(lessons0, g.children, k, BookLessonsOf(s, g), lessons);
      assert BookRowOf(s, g)(b) == [BookRecord(s, g, b)];
      assert BookLessonsOf(s, g)(b) == BookLessons(s, g, b);
      books := books + [BookRecord(s, g, b)];
      lessons := PushLessons(s, g, b, lessons);
    }
    assert g.children[..|g.children|] == g.children;
  }

  method PushLessons(s: SubjectNode, g: GradeNode, b: BookNode, lessons0: seq<FlatLesson>)
    returns (lessons: seq<FlatLesson>)
    ensures lessons == lessons0 + BookLessons(s, g, b)
  {
    lessons := lessons0;
    for m := 0 to |b.children|
      invariant lessons == lessons0 + FlatMap(b.children[..m], LessonRowOf(s, g, b))
    {
      lessons := lessons + [LessonRecord(s, g, b, b.children[m])];
      FlatMapStep(b.children, m, LessonRowOf(s, g, b));
    }
    assert b.children[..|b.children|] == b.children;
  }

  // ---------------------------------------------------------------------------
  // What the tables are: the nodes of each depth, in document order, one row per node.

  function Grades(s: SubjectNode): seq<GradeNode> { s.children }
  function Books(g: GradeNode): seq<BookNode> { g.children }
  function Lessons(b: BookNode): seq<LessonNode> { b.children }
  function SubjectBookNodes(s: SubjectNode): seq<BookNode> { FlatMap(s.children, Books) }
  function GradeLessonNodes(g: GradeNode): seq<LessonNode> { FlatMap(g.children, Lessons) }
  function SubjectLessonNodes(s: SubjectNode): seq<LessonNode> { FlatMap(s.children, GradeLessonNodes) }

  /** The grade, book and lesson nodes of a tree in depth-first document order. */
  function GradeNodes(tree: seq<SubjectNode>): seq<GradeNode> { FlatMap(tree, Grades) }
  function BookNodes(tree: seq<SubjectNode>): seq<BookNode> { FlatMap(tree, SubjectBookNodes) }
  function LessonNodes(tree: seq<SubjectNode>): seq<LessonNode> { FlatMap(tree, SubjectLessonNodes) }

  /** `xs` and `ys` have the same length and `R` relates the elements at each position. */
  ghost predicate Corresponds<X, Y>(xs: seq<X>, ys: seq<Y>, R: (X, Y) -> bool)
  {
    |xs| == |ys| && forall i :: 0 <= i < |xs| ==> R(xs[i], ys[i])
  }

  lemma CorrespondsAppend<X, Y>(xs: seq<X>, ys: seq<Y>, xs': seq<X>, ys': seq<Y>, R: (X, Y) -> bool)
    requires Corresponds(xs, ys, R) && Corresponds(xs', ys', R)
    ensures Corresponds(xs + xs', ys + ys', R)
  {
    forall i | 0 <= i < |xs + xs'|
      ensures R((xs + xs')[i], (ys + ys')[i])
    {
      if i >= |xs| {
        assert (xs + xs')[i] == xs'[i - |xs|] && (ys + ys')[i] == ys'[i - |ys|];
      }
    }
  }

  /** Two concatenations correspond when the pieces they concatenate correspond. */
  lemma {:induction false} FlatMapCorresponds<A, X, Y>(ns: seq<A>, f: A -> seq<X>, h: A -> seq<Y>,
                                                      R: (X, Y) -> bool)
    requires forall a :: a in ns ==> Corresponds(f(a), h(a), R)
    ensures Corresponds(FlatMap(ns, f), FlatMap(ns, h), R)
  {
    if ns != [] {
      var n := |ns|;
      assert ns[n - 1] in ns;
      assert forall a :: a in ns[..n - 1] ==> a in ns;
      FlatMapCorresponds(ns[..n - 1], f, h, R);
      CorrespondsAppend(FlatMap(ns[..n - 1], f), FlatMap(ns[..n - 1], h), f(ns[n - 1]), h(ns[n - 1]), R);
    }
  }

  /** One row per node: a concatenation of singletons corresponds to the nodes themselves. */
  lemma {:induction false} FlatMapSingletons<A, X>(ns: seq<A>, f: A -> seq<X>, R: (X, A) -> bool)
    requires forall a :: a in ns ==> |f(a)| == 1 && R(f(a)[0], a)
    ensures Corresponds(FlatMap(ns, f), ns, R)
  {
    if ns != [] {
      var n := |ns|;
      assert ns[n - 1] in ns;
      assert forall a :: a in ns[..n - 1] ==> a in ns;
      FlatMapSingletons(ns[..n - 1], f, R);
      assert ns == ns[..n - 1] + [ns[n - 1]];
      CorrespondsAppend(FlatMap(ns[..n - 1], f), ns[..n - 1], f(ns[n - 1]), [ns[n - 1]], R);
    }
  }

  predicate SubjectMatches(r: FlatSubject, n: SubjectNode) { r.id == n.id && r.name == n.name }
  predicate GradeMatches(r: FlatGrade, n: GradeNode) { r.id == n.id && r.name == n.name }
  predicate BookMatches(r: FlatBook, n: BookNode) { r.id == n.id && r.name == n.name }
  predicate LessonMatches(r: FlatLesson, n: LessonNode) { r.id == n.id && r.name == n.name }

  /** Row i of each table is the i-th node of its depth in document order, with that node's
      id and name; so each table has as many rows as the tree has nodes at that depth. */
  lemma TablesFollowTree(tree: seq<SubjectNode>)
    ensures Corresponds(TablesOf(tree).subjects, tree, SubjectMatches)
    ensures Corresponds(TablesOf(tree).grades, GradeNodes(tree), GradeMatches)
    ensures Corresponds(TablesOf(tree).books, BookNodes(tree), BookMatches)
    ensures Corresponds(TablesOf(tree).lessons, LessonNodes(tree), LessonMatches)
  {
    FlatMapSingletons(tree, SubjectRows, SubjectMatches);
    GradeTableFollowsTree(tree);
    BookTableFollowsTree(tree);
    LessonTableFollowsTree(tree);
  }

  lemma GradeTableFollowsTree(tree: seq<SubjectNode>)
    ensures Corresponds(TablesOf(tree).grades, GradeNodes(tree), GradeMatches)
  {
    forall s | s in tree
      ensures Corresponds(GradeRows(s), Grades(s), GradeMatches)
    {
      FlatMapSingletons(s.children, GradeRowOf(s), GradeMatches);
    }
    FlatMapCorresponds(tree, GradeRows, Grades, GradeMatches);
  }

  lemma BookTableFollowsTree(tree: seq<SubjectNode>)
    ensures Corresponds(TablesOf(tree).books, BookNodes(tree), BookMatches)
  {
    forall s | s in tree
      ensures Corresponds(SubjectBooks(s), SubjectBookNodes(s), BookMatches)
    {
      forall g | g in s.children
        ensures Corresponds(GradeBooksOf(s)(g), Books(g), BookMatches)
      {
        FlatMapSingletons(g.children, BookRowOf(s, g), BookMatches);
      }
      FlatMapCorresponds(s.children, GradeBooksOf(s), Books, BookMatches);
    }
    FlatMapCorresponds(tree, SubjectBooks, SubjectBookNodes, BookMatches);
  }

  lemma LessonTableFollowsTree(tree: seq<SubjectNode>)
    ensures Corresponds(TablesOf(tree).lessons, LessonNodes(tree), LessonMatches)
  {
    forall s | s in tree
      ensures Corresponds(SubjectLessons(s), SubjectLessonNodes(s), LessonMatches)
    {
      forall g | g in s.children
        ensures Corresponds(GradeLessonsOf(s)(g), GradeLessonNodes(g), LessonMatches)
      {
        forall b | b in g.children
          ensures Corresponds(BookLessonsOf(s, g)(b), Lessons(b), LessonMatches)
        {
          FlatMapSingletons(b.children, LessonRowOf(s, g, b), LessonMatches);
        }
        FlatMapCorresponds(g.children, BookLessonsOf(s, g), Lessons, LessonMatches);
      }
      FlatMapCorresponds(s.children, GradeLessonsOf(s), GradeLessonNodes, LessonMatches);
    }
    FlatMapCorresponds(tree, SubjectLessons, SubjectLessonNodes, LessonMatches);
  }

  /** The tables of two forests side by side are the tables of the first followed by those of
      the second: each table lists its rows in document order. */
  lemma TablesOfAppend(tree: seq<SubjectNode>, more: seq<SubjectNode>)
    ensures TablesOf(tree + more).subjects == TablesOf(tree).subjects + TablesOf(more).subjects
    ensures TablesOf(tree + more).grades == TablesOf(tree).grades + TablesOf(more).grades
    ensures TablesOf(tree + more).books == TablesOf(tree).books + TablesOf(more).books
    ensures TablesOf(tree + more).lessons == TablesOf(tree).lessons + TablesOf(more).lessons
  {
    FlatMapAppend(tree, more, SubjectRows);
    FlatMapAppend(tree, more, GradeRows);
    FlatMapAppend(tree, more, SubjectBooks);
    FlatMapAppend(tree, more, SubjectLessons);
  }

  // ---------------------------------------------------------------------------
  // Where each row comes from: the enclosing nodes' ids are its foreign keys.

  lemma GradeOrigin(tree: seq<SubjectNode>, r: FlatGrade)
    requires r in TablesOf(tree).grades
    ensures exists s, g :: s in tree && g in s.children && r == GradeRecord(s, g)
  {
    FlatMapMember(tree, GradeRows, r);
    var s :| s in tree && r in GradeRows(s);
    FlatMapMember(s.children, GradeRowOf(s), r);
  }

  lemma BookOrigin(tree: seq<SubjectNode>, r: FlatBook)
    requires r in TablesOf(tree).books
    ensures exists s, g, b :: s in tree && g in s.children && b in g.children && r == BookRecord(s, g, b)
  {
    FlatMapMember(tree, SubjectBooks, r);
    var s :| s in tree && r in SubjectBooks(s);
    FlatMapMember(s.children, GradeBooksOf(s), r);
    var g :| g in s.children && r in GradeBooksOf(s)(g);
    FlatMapMember(g.children, BookRowOf(s, g), r);
  }

  lemma LessonOrigin(tree: seq<SubjectNode>, r: FlatLesson)
    requires r in TablesOf(tree).lessons
    ensures exists s, g, b, l :: s in tree && g in s.children && b in g.children && l in b.children &&
                                 r == LessonRecord(s, g, b, l)
  {
    FlatMapMember(tree, SubjectLessons, r);
    var s :| s in tree && r in SubjectLessons(s);
    FlatMapMember(s.children, GradeLessonsOf(s), r);
    var g :| g in s.children && r in GradeLessonsOf(s)(g);
    FlatMapMember(g.children, BookLessonsOf(s, g), r);
    var b :| b in g.children && r in BookLessonsOf(s, g)(b);
    FlatMapMember(b.children, LessonRowOf(s, g, b), r);
  }

  lemma SubjectRowPresent(tree: seq<SubjectNode>, s: SubjectNode)
    requires s in tree
    ensures SubjectRecord(s) in TablesOf(tree).subjects
  {
    FlatMapMember(tree, SubjectRows, SubjectRecord(s));
  }

  lemma GradeRowPresent(tree: seq<SubjectNode>, s: SubjectNode, g: GradeNode)
    requires s in tree && g in s.children
    ensures GradeRecord(s, g) in TablesOf(tree).grades
  {
    FlatMapMember(s.children, GradeRowOf(s), GradeRecord(s, g));
    FlatMapMember(tree, GradeRows, GradeRecord(s, g));
  }

  lemma BookRowPresent(tree: seq<SubjectNode>, s: SubjectNode, g: GradeNode, b: BookNode)
    requires s in tree && g in s.children && b in g.children
    ensures BookRecord(s, g, b) in TablesOf(tree).books
  {
    var r := BookRecord(s, g, b);
    FlatMapMember(g.children, BookRowOf(s, g), r);
    FlatMapMember(s.children, GradeBooksOf(s), r);
    FlatMapMember(tree, SubjectBooks, r);
  }

  // ---------------------------------------------------------------------------
  // The validation pass.

  predicate HasSubject(subjects: seq<FlatSubject>, id: string) { exists r :: r in subjects && r.id == id }
  predicate HasGrade(grades: seq<FlatGrade>, id: string) { exists r :: r in grades && r.id == id }
  predicate HasBook(books: seq<FlatBook>, id: string) { exists r :: r in books && r.id == id }

  /** Every foreign key in the tables names a row of the table it points into. */
  ghost predicate Resolved(t: Tables)
  {
    (forall r :: r in t.grades ==> HasSubject(t.subjects, r.subjectId)) &&
    (forall r :: r in t.books ==> HasGrade(t.grades, r.gradeId) && HasSubject(t.subjects, r.subjectId)) &&
    (forall r :: r in t.lessons ==>
       HasBook(t.books, r.bookId) && HasGrade(t.grades, r.gradeId) && HasSubject(t.subjects, r.subjectId))
  }

  /** Referential integrity holds by construction. */
  lemma FlattenedIsResolved(tree: seq<SubjectNode>)
    ensures Resolved(TablesOf(tree))
  {
    var t := TablesOf(tree);
    forall r | r in t.grades
      ensures HasSubject(t.subjects, r.subjectId)
    {
      GradeOrigin(tree, r);
      var s, g :| s in tree && g in s.children && r == GradeRecord(s, g);
      SubjectRowPresent(tree, s);
    }
    forall r | r in t.books
      ensures HasGrade(t.grades, r.gradeId) && HasSubject(t.subjects, r.subjectId)
    {
      BookOrigin(tree, r);
      var s, g, b :| s in tree && g in s.children && b in g.children && r == BookRecord(s, g, b);
      SubjectRowPresent(tree, s);
      GradeRowPresent(tree, s, g);
    }
    forall r | r in t.lessons
      ensures HasBook(t.books, r.bookId) && HasGrade(t.grades, r.gradeId) &&
              HasSubject(t.subjects, r.subjectId)
    {
      LessonOrigin(tree, r);
      var s, g, b, l :| s in tree && g in s.children && b in g.children && l in b.children &&
                        r == LessonRecord(s, g, b, l);
      SubjectRowPresent(tree, s);
      GradeRowPresent(tree, s, g);
      BookRowPresent(tree, s, g, b);
    }
  }

  function SubjectIdIs(id: string): FlatSubject -> bool { (r: FlatSubject) => r.id == id }
  function GradeIdIs(id: string): FlatGrade -> bool { (r: FlatGrade) => r.id == id }
  function BookIdIs(id: string): FlatBook -> bool { (r: FlatBook) => r.id == id }

  /** 1 when `find` comes back empty-handed, else 0. */
  function Missing<T(!new)>(xs: seq<T>, p: T -> bool): nat
  {
    if Find(xs, p).None? then 1 else 0
  }

  function GradeErrors(grades: seq<FlatGrade>, subjects: seq<FlatSubject>): nat
  {
    if grades == [] then 0
    else
      var r := grades[|grades| - 1];
      GradeErrors(grades[..|grades| - 1], subjects) + Missing(subjects, SubjectIdIs(r.subjectId))
  }

  function BookErrors(books: seq<FlatBook>, grades: seq<FlatGrade>, subjects: seq<FlatSubject>): nat
  {
    if books == [] then 0
    else
      var r := books[|books| - 1];
      BookErrors(books[..|books| - 1], grades, subjects) +
        Missing(grades, GradeIdIs(r.gradeId)) + Missing(subjects, SubjectIdIs(r.subjectId))
  }

  function LessonErrors(lessons: seq<FlatLesson>, books: seq<FlatBook>, grades: seq<FlatGrade>,
                        subjects: seq<FlatSubject>): nat
  {
    if lessons == [] then 0
    else
      var r := lessons[|lessons| - 1];
      LessonErrors(lessons[..|lessons| - 1], books, grades, subjects) +
        Missing(books, BookIdIs(r.bookId)) + Missing(grades, GradeIdIs(r.gradeId)) +
        Missing(subjects, SubjectIdIs(r.subjectId))
  }

  /** The final value of `validationErrors`: one per dangling reference. */
  function ValidationErrors(t: Tables): nat
  {
    GradeErrors(t.grades, t.subjects) + BookErrors(t.books, t.grades, t.subjects) +
      LessonErrors(t.lessons, t.books, t.grades, t.subjects)
  }

  /** The three validation loops, counting as they go. */
  method Validate(t: Tables) returns (validationErrors: nat)
    ensures validationErrors == ValidationErrors(t)
  {
    validationErrors := 0;
    validationErrors := CheckGrades(t, validationErrors);
    validationErrors := CheckBooks(t, validationErrors);
    validationErrors := CheckLessons(t, validationErrors);
  }

  method CheckGrades(t: Tables, errors0: nat) returns (errors: nat)
    ensures errors == errors0 + GradeErrors(t.grades, t.subjects)
  {
    errors := errors0;
    for i := 0 to |t.grades|
      invariant errors == errors0 + GradeErrors(t.grades[..i], t.subjects)
    {
      assert t.grades[..i + 1][..i] == t.grades[..i];
      var subject := Find(t.subjects, SubjectIdIs(t.grades[i].subjectId));
      if subject.None? {
        errors := errors + 1;
      }
    }
    assert t.grades[..|t.grades|] == t.grades;
  }

  method CheckBooks(t: Tables, errors0: nat) returns (errors: nat)
    ensures errors == errors0 + BookErrors(t.books, t.grades, t.subjects)
  {
    errors := errors0;
    for i := 0 to |t.books|
      invariant errors == errors0 + BookErrors(t.books[..i], t.grades, t.subjects)
    {
      assert t.books[..i + 1][..i] == t.books[..i];
      var book := t.books[i];
      var grade := Find(t.grades, GradeIdIs(book.gradeId));
      var subject := Find(t.subjects, SubjectIdIs(book.subjectId));
      if grade.None? {
        errors := errors + 1;
      }
      if subject.None? {
        errors := errors + 1;
      }
    }
    assert t.books[..|t.books|] == t.books;
  }

  method CheckLessons(t: Tables, errors0: nat) returns (errors: nat)
    ensures errors == errors0 + LessonErrors(t.lessons, t.books, t.grades, t.subjects)
  {
    errors := errors0;
    for i := 0 to |t.lessons|
      invariant errors == errors0 + LessonErrors(t.lessons[..i], t.books, t.grades, t.subjects)
    {
      LessonErrorsStep(t.lessons, i, t.books, t.grades, t.subjects);
      var lesson := t.lessons[i];
      var book := Find(t.books, BookIdIs(lesson.bookId));
      var grade := Find(t.grades, GradeIdIs(lesson.gradeId));
      var subject := Find(t.subjects, SubjectIdIs(lesson.subjectId));
      if book.None? {
        errors := errors + 1;
      }
      if grade.None? {
        errors := errors + 1;
      }
      if subject.None? {
        errors := errors + 1;
      }
    }
    assert t.lessons[..|t.lessons|] == t.lessons;
  }

  /** Checking lesson i adds its dangling references to the count for lessons 0 .. i-1. */
  lemma LessonErrorsStep(lessons: seq<FlatLesson>, i: nat, books: seq<FlatBook>, grades: seq<FlatGrade>,
                         subjects: seq<FlatSubject>)
    requires i < |lessons|
    ensures LessonErrors(lessons[..i + 1], books, grades, subjects) ==
              LessonErrors(lessons[..i], books, grades, subjects) +
              Missing(books, BookIdIs(lessons[i].bookId)) + Missing(grades, GradeIdIs(lessons[i].gradeId)) +
              Missing(subjects, SubjectIdIs(lessons[i].subjectId))
  {
    assert lessons[..i + 1][..i] == lessons[..i];
  }

  lemma MissingSubject(subjects: seq<FlatSubject>, id: string)
    ensures Missing(subjects, SubjectIdIs(id)) == 0 <==> HasSubject(subjects, id)
  {
    if HasSubject(subjects, id) {
      var r :| r in subjects && r.id == id;
      assert SubjectIdIs(id)(r);
    }
  }

  lemma MissingGrade(grades: seq<FlatGrade>, id: string)
    ensures Missing(grades, GradeIdIs(id)) == 0 <==> HasGrade(grades, id)
  {
    if HasGrade(grades, id) {
      var r :| r in grades && r.id == id;
      assert GradeIdIs(id)(r);
    }
  }

  lemma MissingBook(books: seq<FlatBook>, id: string)
    ensures Missing(books, BookIdIs(id)) == 0 <==> HasBook(books, id)
  {
    if HasBook(books, id) {
      var r :| r in books && r.id == id;
      assert BookIdIs(id)(r);
    }
  }

  lemma {:induction false} GradeErrorsZero(grades: seq<FlatGrade>, subjects: seq<FlatSubject>)
    ensures GradeErrors(grades, subjects) == 0 <==> forall r :: r in grades ==> HasSubject(subjects, r.subjectId)
  {
    if grades != [] {
      var n := |grades|;
      GradeErrorsZero(grades[..n - 1], subjects);
      MissingSubject(subjects, grades[n - 1].subjectId);
      assert grades == grades[..n - 1] + [grades[n - 1]];
    }
  }

  lemma {:induction false} BookErrorsZero(books: seq<FlatBook>, grades: seq<FlatGrade>, subjects: seq<FlatSubject>)
    ensures BookErrors(books, grades, subjects) == 0 <==>
              forall r :: r in books ==> HasGrade(grades, r.gradeId) && HasSubject(subjects, r.subjectId)
  {
    if books != [] {
      var n := |books|;
      BookErrorsZero(books[..n - 1], grades, subjects);
      MissingGrade(grades, books[n - 1].gradeId);
      MissingSubject(subjects, books[n - 1].subjectId);
      assert books == books[..n - 1] + [books[n - 1]];
    }
  }

  lemma {:induction false} LessonErrorsZero(lessons: seq<FlatLesson>, books: seq<FlatBook>,
                                            grades: seq<FlatGrade>, subjects: seq<FlatSubject>)
    ensures LessonErrors(lessons, books, grades, subjects) == 0 <==>
              forall r :: r in lessons ==>
                HasBook(books, r.bookId) && HasGrade(grades, r.gradeId) && HasSubject(subjects, r.subjectId)
  {
    if lessons != [] {
      var n := |lessons|;
      var r := lessons[n - 1];
      LessonErrorsZero(lessons[..n - 1], books, grades, subjects);
      MissingBook(books, r.bookId);
      MissingGrade(grades, r.gradeId);
      MissingSubject(subjects, r.subjectId);
      assert lessons == lessons[..n - 1] + [r];
      assert forall x :: x in lessons <==> x in lessons[..n - 1] || x == r;
    }
  }

  /** The validation pass reports nothing exactly when every reference resolves. */
  lemma ValidationErrorsZero(t: Tables)
    ensures ValidationErrors(t) == 0 <==> Resolved(t)
  {
    GradeErrorsZero(t.grades, t.subjects);
    BookErrorsZero(t.books, t.grades, t.subjects);
    LessonErrorsZero(t.lessons, t.books, t.grades, t.subjects);
  }

  /** Run over freshly flattened tables, the validation pass always ends with zero errors. */
  lemma FlattenedValidates(tree: seq<SubjectNode>)
    ensures ValidationErrors(TablesOf(tree)) == 0
  {
    FlattenedIsResolved(tree);
    ValidationErrorsZero(TablesOf(tree));
  }

  /** Every row the script emits has sort order 0 and is active. */
  lemma RowsAreActive(tree: seq<SubjectNode>)
    ensures forall r :: r in TablesOf(tree).subjects ==> r.sortOrder == 0 && r.isActive
    ensures forall r :: r in TablesOf(tree).grades ==> r.sortOrder == 0 && r.isActive
    ensures forall r :: r in TablesOf(tree).books ==> r.sortOrder == 0 && r.isActive
    ensures forall r :: r in TablesOf(tree).lessons ==> r.sortOrder == 0 && r.isActive
  {
    var t := TablesOf(tree);
    forall r | r in t.subjects ensures r.sortOrder == 0 && r.isActive {
      FlatMapMember(tree, SubjectRows, r);
    }
    forall r | r in t.grades ensures r.sortOrder == 0 && r.isActive {
      GradeOrigin(tree, r);
    }
    forall r | r in t.books ensures r.sortOrder == 0 && r.isActive {
      BookOrigin(tree, r);
    }
    forall r | r in t.lessons ensures r.sortOrder == 0 && r.isActive {
      LessonOrigin(tree, r);
    }
  }
}
