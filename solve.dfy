/** GET /api/solve (app/api/solve/route.ts), the legacy endpoint: one question and an answer
    to it, or the stored collections themselves. It writes nothing. */
module SolveRoute {
  import opened Common
  import opened Records
  import UsersRoute

  /** The reply, over the type in which users are sent. The aggregate has no `answers` key. */
  datatype Legacy<U> =
    | Lookup(question: Option<Question>, answer: Option<Answer>)
    | Everything(questions: seq<Question>, subjects: seq<Subject>, grades: seq<Grade>,
                 books: seq<Book>, lessons: seq<Lesson>, users: seq<U>)

  function QuestionIs(questionId: string): Question -> bool { (q: Question) => q.id == questionId }
  function AnswerTo(questionId: string): Answer -> bool { (a: Answer) => a.questionId == questionId }

  /** The lookup: the first question with the id and, independently, the first answer to it;
      None stands for null. */
  function Pick(questions: seq<Question>, answers: seq<Answer>, questionId: string): (r: (Option<Question>, Option<Answer>))
    ensures r.0.None? <==> forall q :: q in questions ==> q.id != questionId
    ensures r.0.Some? ==> IsFirst(questions, QuestionIs(questionId), r.0.value)
    ensures r.1.None? <==> forall a :: a in answers ==> a.questionId != questionId
    ensures r.1.Some? ==> IsFirst(answers, AnswerTo(questionId), r.1.value)
  {
    var question := Find(questions, QuestionIs(questionId));
    var answer := Find(answers, AnswerTo(questionId));
    FindIsFirst(questions, QuestionIs(questionId));
    FindIsFirst(answers, AnswerTo(questionId));
    assert forall q :: QuestionIs(questionId)(q) == (q.id == questionId);
    assert forall a :: AnswerTo(questionId)(a) == (a.questionId == questionId);
    (question, answer)
  }

  /** GET /api/solve as written: without `questionId` (absent or empty is "") the users go out
      as stored, passwords included. */
  function Get(questions: seq<Question>, answers: seq<Answer>, subjects: seq<Subject>,
               grades: seq<Grade>, books: seq<Book>, lessons: seq<Lesson>, users: seq<User>,
               questionId: string): (r: Legacy<User>)
    ensures questionId != "" ==>
              var (q, a) := Pick(questions, answers, questionId); r == Lookup(q, a)
    ensures questionId == "" ==> r == Everything(questions, subjects, grades, books, lessons, users)
  {
    if questionId != "" then
      var (question, answer) := Pick(questions, answers, questionId);
      Lookup(question, answer)
    else
      Everything(questions, subjects, grades, books, lessons, users)
  }

  /** The discrepancy: two user lists that differ only in one password give different
      aggregates, so the payload reveals the stored password (every other user endpoint strips it). */
  lemma AggregateRevealsPasswords()
    ensures var a := [User("u1", "hocsinh", "123456", "Học sinh", "student", "")];
            var b := [User("u1", "hocsinh", "654321", "Học sinh", "student", "")];
            UsersRoute.SameButPasswords(a, b) &&
            Get([], [], [], [], [], [], a, "") != Get([], [], [], [], [], [], b, "")
  {
    var a := [User("u1", "hocsinh", "123456", "Học sinh", "student", "")];
    var b := [User("u1", "hocsinh", "654321", "Học sinh", "student", "")];
    assert Get([], [], [], [], [], [], a, "").users[0].password == "123456";
  }

  /** The aggregate as evidently intended: the users without passwords, as GET /api/users sends
      them. Everything else is as in Get. */
  function GetWithoutPasswords(questions: seq<Question>, answers: seq<Answer>, subjects: seq<Subject>,
                               grades: seq<Grade>, books: seq<Book>, lessons: seq<Lesson>,
                               users: seq<User>, questionId: string): (r: Legacy<PublicUser>)
    ensures questionId != "" ==>
              var (q, a) := Pick(questions, answers, questionId); r == Lookup(q, a)
    ensures questionId == "" ==>
              r.Everything? && r.questions == questions && r.subjects == subjects &&
              r.grades == grades && r.books == books && r.lessons == lessons &&
              |r.users| == |users| &&
              forall i :: 0 <= i < |users| ==> r.users[i] == WithoutPassword(users[i])
  {
    if questionId != "" then
      var (question, answer) := Pick(questions, answers, questionId);
      Lookup(question, answer)
    else
      Everything(questions, subjects, grades, books, lessons, UsersRoute.StripAll(users))
  }

  /** The corrected aggregate does not depend on any stored password. */
  lemma CorrectedHidesPasswords(questions: seq<Question>, answers: seq<Answer>, subjects: seq<Subject>,
                                grades: seq<Grade>, books: seq<Book>, lessons: seq<Lesson>,
                                a: seq<User>, b: seq<User>, questionId: string)
    requires UsersRoute.SameButPasswords(a, b)
    ensures GetWithoutPasswords(questions, answers, subjects, grades, books, lessons, a, questionId) ==
            GetWithoutPasswords(questions, answers, subjects, grades, books, lessons, b, questionId)
  {
    assert UsersRoute.StripAll(a) == UsersRoute.StripAll(b);
  }
}
