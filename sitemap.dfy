/** The sitemap (app/sitemap.ts): the home and login pages, then each subject followed by its
    grades, then each book followed by its lessons, then every question. The `lastModified`
    dates are not part of the model; priorities are in tenths. */
module Sitemap {
  import opened Common
  import opened Records

  datatype Frequency = Daily | Weekly | Monthly

  datatype Entry = Entry(url: string, changeFrequency: Frequency, priority: nat)

  const BaseUrl := "https://solvefy.vercel.app"

  const Home := Entry(BaseUrl, Daily, 10)
  const Login := Entry(BaseUrl + "/login", Monthly, 5)

  /** A template literal writes an absent slug as "undefined". */
  function SlugText(slug: Option<string>): string
  {
    if slug.None? then "undefined" else slug.value
  }

  function SubjectEntry(s: Subject): Entry { Entry(BaseUrl + "/" + s.slug, Weekly, 9) }
  function GradeEntry(s: Subject, g: Grade): Entry { Entry(BaseUrl + "/" + s.slug + "/" + g.slug, Weekly, 8) }
  function BookEntry(b: Book): Entry { Entry(BaseUrl + "/book/" + b.slug, Weekly, 7) }
  function LessonEntry(b: Book, l: Lesson): Entry { Entry(BaseUrl + "/book/" + b.slug + "/" + l.slug, Weekly, 6) }
  function QuestionEntry(q: Question): Entry { Entry(BaseUrl + "/cau-hoi/" + SlugText(q.slug), Daily, 5) }

  function GradeOf(s: Subject, g: Grade): bool { g.subjectId == s.id }
  function LessonOf(b: Book, l: Lesson): bool { l.bookId == b.id }

  // ---------------------------------------------------------------------------
  // A parent entry followed by the entries of its children: subjects with grades, books
  // with lessons.

  function BelongsTo<P, C>(p: P, belongs: (P, C) -> bool): C -> bool
  {
    (c: C) => belongs(p, c)
  }

  function Under<P, C>(p: P, cs: seq<C>, under: (P, C) -> Entry): (r: seq<Entry>)
    ensures |r| == |cs| && forall i :: 0 <= i < |cs| ==> r[i] == under(p, cs[i])
  {
    seq(|cs|, i requires 0 <= i < |cs| => under(p, cs[i]))
  }

  function Block<P, C>(p: P, children: seq<C>, belongs: (P, C) -> bool,
                       top: P -> Entry, under: (P, C) -> Entry): seq<Entry>
  {
    [top(p)] + Under(p, Filter(children, BelongsTo(p, belongs)), under)
  }

  function Section<P, C>(parents: seq<P>, children: seq<C>, belongs: (P, C) -> bool,
                         top: P -> Entry, under: (P, C) -> Entry): seq<Entry>
  {
    if parents == [] then []
    else Section(parents[..|parents| - 1], children, belongs, top, under) +
         Block(parents[|parents| - 1], children, belongs, top, under)
  }

  /** How many children each parent has, summed over the parents. */
  function ChildCount<P, C>(parents: seq<P>, children: seq<C>, belongs: (P, C) -> bool): nat
  {
    if parents == [] then 0
    else ChildCount(parents[..|parents| - 1], children, belongs) +
         |Filter(children, BelongsTo(parents[|parents| - 1], belongs))|
  }

  /** `parents.forEach(p => { push(top(p)); children.filter(...).forEach(c => push(under(p, c))) })`. */
  method PushSection<P, C>(sitemap0: seq<Entry>, parents: seq<P>, children: seq<C>,
                           belongs: (P, C) -> bool, top: P -> Entry, under: (P, C) -> Entry)
    returns (sitemap: seq<Entry>)
    ensures sitemap == sitemap0 + Section(parents, children, belongs, top, under)
  {
    sitemap := sitemap0;
    for i := 0 to |parents|
      invariant sitemap == sitemap0 + Section(parents[..i], children, belongs, top, under)
    {
      sitemap := PushBlock(sitemap, parents[i], children, belongs, top, under);
      assert parents[..i + 1] == parents[..i] + [parents[i]];
      SectionSnoc(parents[..i], parents[i], children, belongs, top, under);
      ConcatAssoc(sitemap0, Section(parents[..i], children, belongs, top, under),
                  Block(parents[i], children, belongs, top, under));
    }
    assert parents[..|parents|] == parents;
  }

  /** The entry of one parent, then the entries of its children. */
  method PushBlock<P, C>(sitemap0: seq<Entry>, p: P, children: seq<C>,
                         belongs: (P, C) -> bool, top: P -> Entry, under: (P, C) -> Entry)
    returns (sitemap: seq<Entry>)
    ensures sitemap == sitemap0 + Block(p, children, belongs, top, under)
  {
    sitemap := sitemap0 + [top(p)];
    var mine := Filter(children, BelongsTo(p, belongs));
    ghost var entries := Under(p, mine, under);
    for j := 0 to |mine|
      invariant sitemap == sitemap0 + [top(p)] + entries[..j]
    {
      assert entries[..j + 1] == entries[..j] + [entries[j]];
      sitemap := sitemap + [under(p, mine[j])];
    }
    assert entries[..|mine|] == entries;
  }

  lemma {:induction false} SectionLength<P, C>(parents: seq<P>, children: seq<C>, belongs: (P, C) -> bool,
                                               top: P -> Entry, under: (P, C) -> Entry)
    ensures |Section(parents, children, belongs, top, under)| == |parents| + ChildCount(parents, children, belongs)
  {
    if parents != [] {
      SectionLength(parents[..|parents| - 1], children, belongs, top, under);
    }
  }

  lemma {:induction false} SectionAppend<P, C>(a: seq<P>, b: seq<P>, children: seq<C>, belongs: (P, C) -> bool,
                                               top: P -> Entry, under: (P, C) -> Entry)
    ensures Section(a + b, children, belongs, top, under) ==
              Section(a, children, belongs, top, under) + Section(b, children, belongs, top, under)
  {
    if b == [] {
      assert a + b == a;
    } else {
      var init, x := b[..|b| - 1], b[|b| - 1];
      assert b == init + [x];
      assert a + b == (a + init) + [x];
      SectionSnoc(a + init, x, children, belongs, top, under);
      SectionSnoc(init, x, children, belongs, top, under);
      SectionAppend(a, init, children, belongs, top, under);
      ConcatAssoc(Section(a, children, belongs, top, under), Section(init, children, belongs, top, under),
                  Block(x, children, belongs, top, under));
    }
  }

  lemma ConcatAssoc(x: seq<Entry>, y: seq<Entry>, z: seq<Entry>)
    ensures (x + y) + z == x + (y + z)
  {
  }

  /** One more parent adds its block at the end. */
  lemma SectionSnoc<P, C>(parents: seq<P>, p: P, children: seq<C>, belongs: (P, C) -> bool,
                          top: P -> Entry, under: (P, C) -> Entry)
    ensures Section(parents + [p], children, belongs, top, under) ==
              Section(parents, children, belongs, top, under) + Block(p, children, belongs, top, under)
  {
    assert (parents + [p])[..|parents|] == parents;
  }

  lemma SectionSplit<P, C>(parents: seq<P>, children: seq<C>, belongs: (P, C) -> bool,
                           top: P -> Entry, under: (P, C) -> Entry, i: nat)
    requires i < |parents|
    ensures Section(parents, children, belongs, top, under) ==
              Section(parents[..i], children, belongs, top, under) +
              Block(parents[i], children, belongs, top, under) +
              Section(parents[i + 1..], children, belongs, top, under)
  {
    assert parents == (parents[..i] + [parents[i]]) + parents[i + 1..];
    SectionAppend(parents[..i] + [parents[i]], parents[i + 1..], children, belongs, top, under);
    SectionAppend(parents[..i], [parents[i]], children, belongs, top, under);
    assert [parents[i]][..0] == [];
  }

  /** The entries of a section are the parents' entries and the entries of the children that
      belong to one of the parents, and nothing else: a child without a parent gets none. */
  lemma {:induction false} SectionMembers<P(!new), C(!new)>(parents: seq<P>, children: seq<C>, belongs: (P, C) -> bool,
                                                top: P -> Entry, under: (P, C) -> Entry)
    ensures forall e :: e in Section(parents, children, belongs, top, under) <==>
                          (exists p :: p in parents && e == top(p)) ||
                          (exists p, c :: p in parents && c in children && belongs(p, c) && e == under(p, c))
  {
    if parents != [] {
      var rest, p := parents[..|parents| - 1], parents[|parents| - 1];
      SectionMembers(rest, children, belongs, top, under);
      var mine := Filter(children, BelongsTo(p, belongs));
      FilterMembers(children, BelongsTo(p, belongs));
      assert forall q :: q in parents <==> q in rest || q == p by {
        assert parents == rest + [p];
      }
      forall c | c in children && belongs(p, c)
        ensures under(p, c) in Under(p, mine, under)
      {
        assert c in mine;
        var k :| 0 <= k < |mine| && mine[k] == c;
        assert Under(p, mine, under)[k] == under(p, c);
      }
    }
  }

  // ---------------------------------------------------------------------------
  // The whole list

  function Subjects(subjects: seq<Subject>, grades: seq<Grade>): seq<Entry>
  {
    Section(subjects, grades, GradeOf, SubjectEntry, GradeEntry)
  }

  function Books(books: seq<Book>, lessons: seq<Lesson>): seq<Entry>
  {
    Section(books, lessons, LessonOf, BookEntry, LessonEntry)
  }

  function Questions(questions: seq<Question>): (r: seq<Entry>)
    ensures |r| == |questions| && forall i :: 0 <= i < |r| ==> r[i] == QuestionEntry(questions[i])
  {
    seq(|questions|, i requires 0 <= i < |questions| => QuestionEntry(questions[i]))
  }

  function SitemapOf(subjects: seq<Subject>, grades: seq<Grade>, books: seq<Book>,
                     lessons: seq<Lesson>, questions: seq<Question>): seq<Entry>
  {
    [Home, Login] + Subjects(subjects, grades) + Books(books, lessons) + Questions(questions)
  }

  /** `sitemap()`: the list built push by push. */
  method Build(subjects: seq<Subject>, grades: seq<Grade>, books: seq<Book>, lessons: seq<Lesson>,
               questions: seq<Question>)
    returns (sitemap: seq<Entry>)
    ensures sitemap == SitemapOf(subjects, grades, books, lessons, questions)
  {
    sitemap := [Home, Login];
    sitemap := PushSection(sitemap, subjects, grades, GradeOf, SubjectEntry, GradeEntry);
    sitemap := PushSection(sitemap, books, lessons, LessonOf, BookEntry, LessonEntry);
    var before := sitemap;
    for k := 0 to |questions|
      invariant sitemap == before + Questions(questions[..k])
    {
      sitemap := sitemap + [QuestionEntry(questions[k])];
    }
    assert questions[..|questions|] == questions;
  }

  /** Two fixed pages, one entry per subject, book and question, and one per grade and lesson
      that belongs to a subject or book; questions close the list. */
  lemma SitemapShape(subjects: seq<Subject>, grades: seq<Grade>, books: seq<Book>,
                     lessons: seq<Lesson>, questions: seq<Question>)
    ensures var s := SitemapOf(subjects, grades, books, lessons, questions);
            |s| == 2 + |subjects| + ChildCount(subjects, grades, GradeOf) +
                   |books| + ChildCount(books, lessons, LessonOf) + |questions| &&
            s[0] == Home && s[1] == Login &&
            s[|s| - |questions|..] == Questions(questions)
  {
    SectionLength(subjects, grades, GradeOf, SubjectEntry, GradeEntry);
    SectionLength(books, lessons, LessonOf, BookEntry, LessonEntry);
  }

  /** Around subject i, the subject section holds the blocks of the subjects before it, then
      its own entry followed at once by its grades' entries in stored order, then the blocks of
      the subjects after it. */
  lemma SubjectThenItsGrades(subjects: seq<Subject>, grades: seq<Grade>, i: nat)
    requires i < |subjects|
    ensures Subjects(subjects, grades) ==
              Subjects(subjects[..i], grades) +
              ([SubjectEntry(subjects[i])] +
               Under(subjects[i], Filter(grades, BelongsTo(subjects[i], GradeOf)), GradeEntry)) +
              Subjects(subjects[i + 1..], grades)
  {
    SectionSplit(subjects, grades, GradeOf, SubjectEntry, GradeEntry, i);
  }

  /** Likewise around book i: its entry is followed at once by its lessons' entries. */
  lemma BookThenItsLessons(books: seq<Book>, lessons: seq<Lesson>, i: nat)
    requires i < |books|
    ensures Books(books, lessons) ==
              Books(books[..i], lessons) +
              ([BookEntry(books[i])] +
               Under(books[i], Filter(lessons, BelongsTo(books[i], LessonOf)), LessonEntry)) +
              Books(books[i + 1..], lessons)
  {
    SectionSplit(books, lessons, LessonOf, BookEntry, LessonEntry, i);
  }

  /** A grade is listed exactly when some subject is its parent; likewise a lesson and its book. */
  lemma ChildEntries(subjects: seq<Subject>, grades: seq<Grade>, books: seq<Book>, lessons: seq<Lesson>)
    ensures forall e :: e in Subjects(subjects, grades) && e.priority == 8 <==>
                          exists s, g :: s in subjects && g in grades && g.subjectId == s.id && e == GradeEntry(s, g)
    ensures forall e :: e in Books(books, lessons) && e.priority == 6 <==>
                          exists b, l :: b in books && l in lessons && l.bookId == b.id && e == LessonEntry(b, l)
  {
    SectionMembers(subjects, grades, GradeOf, SubjectEntry, GradeEntry);
    SectionMembers(books, lessons, LessonOf, BookEntry, LessonEntry);
  }

  /** Questions without a slug, such as those created through POST /api/questions, all share
      one address. */
  lemma SluglessQuestionsShareUrl(q1: Question, q2: Question)
    requires q1.slug.None? && q2.slug.None?
    ensures QuestionEntry(q1) == QuestionEntry(q2) == Entry(BaseUrl + "/cau-hoi/undefined", Daily, 5)
  {
  }
}
