/** /api/questions (app/api/questions/route.ts): listing the questions of a lesson and
    creating a question, appended to questions.json under a fresh `q<n>` id. */
module QuestionsRoute {
  import opened Common
  import opened Records
  import Ids

  function OfLesson(lessonId: string): Question -> bool
  {
    (q: Question) => q.lessonId == lessonId
  }

  /** GET: with a lessonId, exactly that lesson's questions in stored order; otherwise all. */
  function Get(questions: seq<Question>, lessonId: string): (r: seq<Question>)
    ensures lessonId == "" ==> r == questions
    ensures lessonId != "" ==> r == Filter(questions, OfLesson(lessonId))
    ensures lessonId != "" ==> forall q :: q in r <==> q in questions && q.lessonId == lessonId
    ensures lessonId != "" ==>
              forall q :: multiset(r)[q] == if q.lessonId == lessonId then multiset(questions)[q] else 0
  {
    if lessonId == "" then questions
    else
      FilterMembers(questions, OfLesson(lessonId));
      FilterCount(questions, OfLesson(lessonId));
      Filter(questions, OfLesson(lessonId))
  }

  function QuestionIds(questions: seq<Question>): seq<string>
  {
    Ids.IdsOf(questions, (q: Question) => q.id)
  }

  const MissingFields := "Thiếu thông tin bắt buộc (lessonId, title, content, userId)"

  /** POST: every field is required, `title` included, yet the stored record keeps neither a
      title nor a slug. `now` is the ISO time of the request. */
  method Post(questions: seq<Question>, lessonId: string, title: string, content: string,
              userId: string, now: string)
    returns (reply: Reply<Question>, written: seq<Question>)
    ensures lessonId == "" || title == "" || content == "" || userId == "" ==>
              reply == Err(400, MissingFields) && written == questions
    ensures lessonId != "" && title != "" && content != "" && userId != "" ==>
              Ids.MaxId(QuestionIds(questions)) >= 0 &&
              reply == Ok(200, Question(Ids.NewId('q', QuestionIds(questions)), lessonId, None, content,
                                        None, userId, now, now)) &&
              written == questions + [reply.data] &&
              forall q :: q in questions ==> q.id != reply.data.id
  {
    if lessonId == "" || title == "" || content == "" || userId == "" {
      return Err(400, MissingFields), questions;
    }
    var ids := QuestionIds(questions);
    Ids.NewIdIsFresh('q', ids);
    var newQuestion := Question(Ids.NewId('q', ids), lessonId, None, content, None, userId, now, now);
    reply, written := Ok(200, newQuestion), questions + [newQuestion];
    forall q | q in questions
      ensures q.id != newQuestion.id
    {
      var i :| 0 <= i < |questions| && questions[i] == q;
      assert ids[i] == q.id;
    }
  }
}
