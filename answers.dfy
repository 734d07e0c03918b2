/** /api/answers (app/api/answers/route.ts): listing the answers to a question and creating
    an answer, appended to answers.json under a fresh `a<n>` id. */
module AnswersRoute {
  import opened Common
  import opened Records
  import Ids

  function OfQuestion(questionId: string): Answer -> bool
  {
    (a: Answer) => a.questionId == questionId
  }

  /** GET: with a questionId, exactly the answers to that question in stored order; otherwise all. */
  function Get(answers: seq<Answer>, questionId: string): (r: seq<Answer>)
    ensures questionId == "" ==> r == answers
    ensures questionId != "" ==> r == Filter(answers, OfQuestion(questionId))
    ensures questionId != "" ==> forall a :: a in r <==> a in answers && a.questionId == questionId
    ensures questionId != "" ==>
              forall a :: multiset(r)[a] == if a.questionId == questionId then multiset(answers)[a] else 0
  {
    if questionId == "" then answers
    else
      FilterMembers(answers, OfQuestion(questionId));
      FilterCount(answers, OfQuestion(questionId));
      Filter(answers, OfQuestion(questionId))
  }

  function AnswerIds(answers: seq<Answer>): seq<string>
  {
    Ids.IdsOf(answers, (a: Answer) => a.id)
  }

  const MissingFields := "Thiếu thông tin bắt buộc (questionId, answer, userId)"

  /** POST: questionId, answer and userId are required; a missing explanation is stored as "".
      `now` is the ISO time of the request. */
  method Post(answers: seq<Answer>, questionId: string, answer: string, explain: string,
              userId: string, now: string)
    returns (reply: Reply<Answer>, written: seq<Answer>)
    ensures questionId == "" || answer == "" || userId == "" ==>
              reply == Err(400, MissingFields) && written == answers
    ensures questionId != "" && answer != "" && userId != "" ==>
              Ids.MaxId(AnswerIds(answers)) >= 0 &&
              reply == Ok(200, Answer(Ids.NewId('a', AnswerIds(answers)), questionId, answer, explain,
                                      userId, now, now)) &&
              written == answers + [reply.data] &&
              forall a :: a in answers ==> a.id != reply.data.id
  {
    if questionId == "" || answer == "" || userId == "" {
      return Err(400, MissingFields), answers;
    }
    var ids := AnswerIds(answers);
    Ids.NewIdIsFresh('a', ids);
    var newAnswer := Answer(Ids.NewId('a', ids), questionId, answer, explain, userId, now, now);
    reply, written := Ok(200, newAnswer), answers + [newAnswer];
    forall a | a in answers
      ensures a.id != newAnswer.id
    {
      var i :| 0 <= i < |answers| && answers[i] == a;
      assert ids[i] == a.id;
    }
  }
}
