/** Slug generation (scripts/generate-slugs.js).

    `generateSlug` lower-cases and NFD-decomposes its text before the chain of rewrites
    modelled here; `GenerateSlug` takes the text after those two Unicode steps (`folded`),
    and the slug assignment methods take the folding as a function parameter. */
module Slugs {
  import opened Common
  import opened Records

  predicate IsCombiningMark(c: char) { '\U{300}' <= c <= '\U{36F}' }

  predicate NotMark(c: char) { !IsCombiningMark(c) }

  predicate IsHyphen(c: char) { c == '-' }

  /** The class `[a-z0-9\s-]` the fourth rewrite keeps. */
  predicate Kept(c: char) { IsLowerAlnum(c) || IsJsSpace(c) || c == '-' }

  /** A character a slug may contain. */
  predicate IsSlugChar(c: char) { IsLowerAlnum(c) || c == '-' }

  predicate IsSlugText(s: string) { forall i :: 0 <= i < |s| ==> IsSlugChar(s[i]) }

  /** No two neighbouring characters of `s` are both `c`. */
  ghost predicate NoRepeat(s: string, c: char)
  {
    forall i, j :: 0 <= i < j < |s| && j == i + 1 ==> !(s[i] == c && s[j] == c)
  }

  ghost predicate NoDoubleHyphen(s: string) { NoRepeat(s, '-') }

  /** `replace(/x/g, y)` for a single character x. */
  function Replace(s: string, x: char, y: char): (r: string)
    ensures |r| == |s|
    ensures forall i :: 0 <= i < |s| ==> r[i] == (if s[i] == x then y else s[i])
  {
    if s == [] then [] else [if s[0] == x then y else s[0]] + Replace(s[1..], x, y)
  }

  /** `replace(/p+/g, c)`: every maximal run of characters satisfying `p` becomes the one
      character `c`; everything else is kept in order. */
  function CollapseRuns(s: string, p: char -> bool, c: char): string
    decreases |s|
  {
    if s == [] then []
    else if p(s[0]) then [c] + CollapseRuns(s[|Span(s, p)|..], p, c)
    else [s[0]] + CollapseRuns(s[1..], p, c)
  }

  /** What `replace(/p+/g, c)` promises: no character of `p` survives except as `c`, a run at
      either end of `s` leaves `c` at that end, and when `c` itself satisfies `p` no two
      copies of it are neighbours. */
  lemma {:induction false} CollapseRunsShape(s: string, p: char -> bool, c: char)
    ensures var r := CollapseRuns(s, p, c);
      (forall i :: 0 <= i < |r| ==> r[i] == c || !p(r[i])) &&
      (|s| > 0 && p(s[0]) ==> |r| > 0 && r[0] == c) &&
      (|s| > 0 && !p(s[0]) ==> |r| > 0 && r[0] == s[0]) &&
      (|s| > 0 && p(s[|s| - 1]) ==> |r| > 0 && r[|r| - 1] == c) &&
      (p(c) ==> NoRepeat(r, c))
    decreases |s|
  {
    if s != [] {
      if p(s[0]) {
        var rest := s[|Span(s, p)|..];
        CollapseRunsShape(rest, p, c);
        assert |rest| > 0 ==> !p(rest[0]);
        if |rest| == 0 {
          assert CollapseRuns(s, p, c) == [c];
        }
      } else {
        CollapseRunsShape(s[1..], p, c);
      }
    }
  }

  /** Collapsing keeps the alphabet: a class holding `c` and every character of `s`
      holds every character of the result. */
  lemma {:induction false} CollapseRunsAlphabet(s: string, p: char -> bool, c: char, q: char -> bool)
    requires q(c) && forall i :: 0 <= i < |s| ==> q(s[i])
    ensures forall i :: 0 <= i < |CollapseRuns(s, p, c)| ==> q(CollapseRuns(s, p, c)[i])
    decreases |s|
  {
    if s != [] {
      if p(s[0]) {
        var rest := s[|Span(s, p)|..];
        CollapseRunsAlphabet(rest, p, c, q);
      } else {
        CollapseRunsAlphabet(s[1..], p, c, q);
      }
    }
  }

  /** JavaScript's String.prototype.trim. */
  function Trim(s: string): string
  {
    TrimEnd(TrimStart(s))
  }

  function TrimStart(s: string): string
  {
    if s != [] && IsJsSpace(s[0]) then TrimStart(s[1..]) else s
  }

  function TrimEnd(s: string): string
  {
    if s != [] && IsJsSpace(s[|s| - 1]) then TrimEnd(s[..|s| - 1]) else s
  }

  /** Lines 11-14: accents, the two d-with-stroke letters and every other character outside
      `[a-z0-9\s-]` are gone. */
  function Cleaned(folded: string): string
  {
    Filter(Replace(Replace(Filter(folded, NotMark), 'đ', 'd'), 'Đ', 'd'), Kept)
  }

  /** Lines 15-16: white-space runs become hyphens, then hyphen runs one hyphen. */
  function Hyphenated(folded: string): string
  {
    CollapseRuns(CollapseRuns(Cleaned(folded), IsJsSpace, '-'), IsHyphen, '-')
  }

  /** generateSlug, from the folded text on. */
  function GenerateSlug(folded: string): (r: string)
    ensures IsSlugText(r)
    ensures NoDoubleHyphen(r)
  {
    HyphenatedIsSlug(folded);
    Trim(Hyphenated(folded))
  }

  /** generateSlugWithId. */
  function GenerateSlugWithId(folded: string, id: string): string
  {
    GenerateSlug(folded) + "-" + id
  }

  lemma HyphenatedIsSlug(folded: string)
    ensures IsSlugText(Hyphenated(folded)) && NoDoubleHyphen(Hyphenated(folded))
    ensures Trim(Hyphenated(folded)) == Hyphenated(folded)
  {
    var k := Cleaned(folded);
    var h1 := CollapseRuns(k, IsJsSpace, '-');
    var h2 := CollapseRuns(h1, IsHyphen, '-');
    CollapseRunsAlphabet(k, IsJsSpace, '-', Kept);
    CollapseRunsShape(k, IsJsSpace, '-');
    assert forall i :: 0 <= i < |h1| ==> IsSlugChar(h1[i]);
    CollapseRunsAlphabet(h1, IsHyphen, '-', IsSlugChar);
    CollapseRunsShape(h1, IsHyphen, '-');
    TrimNoSpace(h2);
  }

  /** Trimming changes nothing in a string without white space. */
  lemma TrimNoSpace(s: string)
    requires forall i :: 0 <= i < |s| ==> !IsJsSpace(s[i])
    ensures Trim(s) == s
  {
  }

  /** The final `.trim()` never removes anything: white space is already gone by then. */
  lemma TrimIsNoOp(folded: string)
    ensures GenerateSlug(folded) == Hyphenated(folded)
  {
    HyphenatedIsSlug(folded);
  }

  lemma {:induction false} CollapseRunsNone(s: string, p: char -> bool, c: char)
    requires forall i :: 0 <= i < |s| ==> !p(s[i])
    ensures CollapseRuns(s, p, c) == s
    decreases |s|
  {
    if s != [] {
      CollapseRunsNone(s[1..], p, c);
    }
  }

  /** Collapsing hyphen runs is the identity when every run already has length one. */
  lemma {:induction false} CollapseSingleHyphens(s: string)
    requires NoDoubleHyphen(s)
    ensures CollapseRuns(s, IsHyphen, '-') == s
    decreases |s|
  {
    if s != [] {
      if s[0] == '-' {
        assert |s| > 1 ==> s[1] != '-';
        assert |Span(s, IsHyphen)| == 1;
        CollapseSingleHyphens(s[1..]);
      } else {
        CollapseSingleHyphens(s[1..]);
      }
    }
  }

  /** generateSlug is idempotent on slugs. */
  lemma GenerateSlugIdempotent(folded: string)
    ensures GenerateSlug(GenerateSlug(folded)) == GenerateSlug(folded)
  {
    var r := GenerateSlug(folded);
    FilterAll(r, NotMark);
    ReplaceAbsent(r, 'đ', 'd');
    ReplaceAbsent(r, 'Đ', 'd');
    FilterAll(r, Kept);
    assert Cleaned(r) == r;
    CollapseRunsNone(r, IsJsSpace, '-');
    CollapseSingleHyphens(r);
    assert Hyphenated(r) == r;
    TrimIsNoOp(r);
  }

  /** The whole of generateSlug, Unicode folding included, is idempotent for any folding
      that leaves `[a-z0-9-]` text alone, as lower-casing and NFD decomposition do. */
  lemma SlugOfTextIdempotent(fold: string -> string, text: string)
    requires forall s :: IsSlugText(s) ==> fold(s) == s
    ensures GenerateSlug(fold(GenerateSlug(fold(text)))) == GenerateSlug(fold(text))
  {
    GenerateSlugIdempotent(fold(text));
  }

  lemma ReplaceAbsent(s: string, x: char, y: char)
    requires forall i :: 0 <= i < |s| ==> s[i] != x
    ensures Replace(s, x, y) == s
  {
  }

  /** Text that begins with white space gives a slug that begins with a hyphen. */
  lemma LeadingSpaceGivesHyphen(folded: string)
    requires |folded| > 0 && IsJsSpace(folded[0])
    ensures |GenerateSlug(folded)| > 0 && GenerateSlug(folded)[0] == '-'
  {
    var a := Filter(folded, NotMark);
    assert a == [folded[0]] + Filter(folded[1..], NotMark);
    var b := Replace(Replace(a, 'đ', 'd'), 'Đ', 'd');
    assert b[0] == folded[0];
    var k := Filter(b, Kept);
    assert k == [b[0]] + Filter(b[1..], Kept);
    CollapseRunsShape(k, IsJsSpace, '-');
    CollapseRunsShape(CollapseRuns(k, IsJsSpace, '-'), IsHyphen, '-');
    TrimIsNoOp(folded);
  }

  /** Text that ends with white space gives a slug that ends with a hyphen. */
  lemma TrailingSpaceGivesHyphen(folded: string)
    requires |folded| > 0 && IsJsSpace(folded[|folded| - 1])
    ensures |GenerateSlug(folded)| > 0 && GenerateSlug(folded)[|GenerateSlug(folded)| - 1] == '-'
  {
    var k := Cleaned(folded);
    CleanedKeepsTrailingSpace(folded);
    CollapseRunsShape(k, IsJsSpace, '-');
    CollapseRunsShape(CollapseRuns(k, IsJsSpace, '-'), IsHyphen, '-');
    TrimIsNoOp(folded);
  }

  lemma CleanedKeepsTrailingSpace(folded: string)
    requires |folded| > 0 && IsJsSpace(folded[|folded| - 1])
    ensures |Cleaned(folded)| > 0 && IsJsSpace(Cleaned(folded)[|Cleaned(folded)| - 1])
  {
    FilterLast(folded, NotMark);
    var a := Filter(folded, NotMark);
    var b := Replace(Replace(a, 'đ', 'd'), 'Đ', 'd');
    assert b[|b| - 1] == folded[|folded| - 1];
    FilterLast(b, Kept);
  }

  /** On text with no white space, hyphen, accent or d-with-stroke, the slug is the
      subsequence of its `[a-z0-9]` characters: the others vanish without a separator. */
  lemma PlainTextKeepsAlnum(folded: string)
    requires forall i :: 0 <= i < |folded| ==>
               !IsJsSpace(folded[i]) && folded[i] != '-' && NotMark(folded[i]) &&
               folded[i] != 'đ' && folded[i] != 'Đ'
    ensures GenerateSlug(folded) == Filter(folded, IsLowerAlnum)
  {
    CleanedPlain(folded);
    CollapseAlnum(Filter(folded, IsLowerAlnum));
    TrimIsNoOp(folded);
  }

  /** Neither collapse touches text made of `[a-z0-9]` alone. */
  lemma CollapseAlnum(k: string)
    requires forall i :: 0 <= i < |k| ==> IsLowerAlnum(k[i])
    ensures CollapseRuns(CollapseRuns(k, IsJsSpace, '-'), IsHyphen, '-') == k
  {
    CollapseRunsNone(k, IsJsSpace, '-');
    CollapseRunsNone(k, IsHyphen, '-');
  }

  lemma CleanedPlain(folded: string)
    requires forall i :: 0 <= i < |folded| ==>
               !IsJsSpace(folded[i]) && folded[i] != '-' && NotMark(folded[i]) &&
               folded[i] != 'đ' && folded[i] != 'Đ'
    ensures Cleaned(folded) == Filter(folded, IsLowerAlnum)
  {
    FilterAll(folded, NotMark);
    ReplaceAbsent(folded, 'đ', 'd');
    ReplaceAbsent(folded, 'Đ', 'd');
    FilterSame(folded, Kept, IsLowerAlnum);
  }

  /** Both d-with-stroke letters become a plain `d`. */
  lemma DStrokeBecomesD()
    ensures GenerateSlug("đ") == "d" && GenerateSlug("Đ") == "d"
  {
    assert Filter("đ", NotMark) == "đ";
    assert Replace("đ", 'đ', 'd') == "d";
    assert Filter("d", Kept) == "d";
    assert Cleaned("đ") == "d";
    assert Filter("Đ", NotMark) == "Đ";
    assert Replace("Đ", 'đ', 'd') == "Đ";
    assert Replace("Đ", 'Đ', 'd') == "d";
    assert Cleaned("Đ") == "d";
    CollapseRunsNone("d", IsJsSpace, '-');
    CollapseRunsNone("d", IsHyphen, '-');
    TrimIsNoOp("đ");
    TrimIsNoOp("Đ");
  }

  /** "2+2" becomes "22": the plus sign is dropped, not replaced by a hyphen. */
  lemma PlusIsDropped()
    ensures GenerateSlug("2+2") == "22"
  {
    PlainTextKeepsAlnum("2+2");
    assert Filter("2+2", IsLowerAlnum) == "22" by {
      assert Filter("2", IsLowerAlnum) == "2";
      assert Filter("+2", IsLowerAlnum) == "2";
    }
  }

  // ---------------------------------------------------------------------------
  // Slug assignment: addSlugsToSubjects and its four siblings rewrite the `slug` field of
  // every record of a loaded JSON array in place, in a forEach.

  method AddSlugsToSubjects(subjects: array<Subject>, fold: string -> string)
    modifies subjects
    ensures forall i :: 0 <= i < subjects.Length ==>
              subjects[i] == old(subjects[i]).(slug := GenerateSlug(fold(old(subjects[i]).name)))
  {
    for k := 0 to subjects.Length
      invariant forall i :: 0 <= i < k ==>
                  subjects[i] == old(subjects[i]).(slug := GenerateSlug(fold(old(subjects[i]).name)))
      invariant forall i :: k <= i < subjects.Length ==> subjects[i] == old(subjects[i])
    {
      subjects[k] := subjects[k].(slug := GenerateSlug(fold(subjects[k].name)));
    }
  }

  method AddSlugsToGrades(grades: array<Grade>, fold: string -> string)
    modifies grades
    ensures forall i :: 0 <= i < grades.Length ==>
              grades[i] == old(grades[i]).(slug := GenerateSlug(fold(old(grades[i]).name)))
  {
    for k := 0 to grades.Length
      invariant forall i :: 0 <= i < k ==>
                  grades[i] == old(grades[i]).(slug := GenerateSlug(fold(old(grades[i]).name)))
      invariant forall i :: k <= i < grades.Length ==> grades[i] == old(grades[i])
    {
      grades[k] := grades[k].(slug := GenerateSlug(fold(grades[k].name)));
    }
  }

  method AddSlugsToBooks(books: array<Book>, fold: string -> string)
    modifies books
    ensures forall i :: 0 <= i < books.Length ==>
              books[i] == old(books[i]).(slug := GenerateSlugWithId(fold(old(books[i]).name), old(books[i]).id))
  {
    for k := 0 to books.Length
      invariant forall i :: 0 <= i < k ==>
                  books[i] == old(books[i]).(slug := GenerateSlugWithId(fold(old(books[i]).name), old(books[i]).id))
      invariant forall i :: k <= i < books.Length ==> books[i] == old(books[i])
    {
      books[k] := books[k].(slug := GenerateSlugWithId(fold(books[k].name), books[k].id));
    }
  }

  method AddSlugsToLessons(lessons: array<Lesson>, fold: string -> string)
    modifies lessons
    ensures forall i :: 0 <= i < lessons.Length ==>
              lessons[i] == old(lessons[i]).(slug := GenerateSlugWithId(fold(old(lessons[i]).name), old(lessons[i]).id))
  {
    for k := 0 to lessons.Length
      invariant forall i :: 0 <= i < k ==>
                  lessons[i] == old(lessons[i]).(slug := GenerateSlugWithId(fold(old(lessons[i]).name), old(lessons[i]).id))
      invariant forall i :: k <= i < lessons.Length ==> lessons[i] == old(lessons[i])
    {
      lessons[k] := lessons[k].(slug := GenerateSlugWithId(fold(lessons[k].name), lessons[k].id));
    }
  }

  /** `title.substring(0, 50)`: the longest prefix of the title that is at most 50 long. */
  function ShortTitle(title: string): (r: string)
    ensures r <= title
    ensures |title| <= 50 ==> r == title
    ensures |title| > 50 ==> |r| == 50
  {
    if |title| <= 50 then title else title[..50]
  }

  function QuestionSlug(q: Question, fold: string -> string): string
    requires q.title.Some?
  {
    GenerateSlugWithId(fold(ShortTitle(q.title.value)), q.id)
  }

  /** addSlugsToQuestions. A question without a title (every question POST /api/questions
      creates) makes `question.title.substring` throw: the loop stops there, `ok` is false
      and the script ends before writing the file back. */
  method AddSlugsToQuestions(questions: array<Question>, fold: string -> string) returns (ok: bool)
    modifies questions
    ensures ok <==> forall i :: 0 <= i < questions.Length ==> old(questions[i]).title.Some?
    ensures ok ==> forall i :: 0 <= i < questions.Length ==>
              questions[i] == old(questions[i]).(slug := Some(QuestionSlug(old(questions[i]), fold)))
  {
    ok := true;
    var k := 0;
    while k < questions.Length
      invariant 0 <= k <= questions.Length
      invariant forall i :: 0 <= i < k ==> (old(questions[i]).title.Some? &&
                  questions[i] == old(questions[i]).(slug := Some(QuestionSlug(old(questions[i]), fold))))
      invariant forall i :: k <= i < questions.Length ==> questions[i] == old(questions[i])
    {
      if questions[k].title.None? {
        return false;
      }
      questions[k] := questions[k].(slug := Some(QuestionSlug(questions[k], fold)));
      k := k + 1;
    }
  }
}
