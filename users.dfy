/** /api/users (app/api/users/route.ts): looking users up, always without their passwords,
    with a user's progress, bookmarks and counts; and the deprecated grading of a submitted
    answer, which writes nothing. A parameter or field that is absent or empty is "". */
module UsersRoute {
  import opened Common
  import opened Records

  datatype Stats = Stats(totalCompleted: nat, totalCorrect: nat, totalBookmarks: nat)

  datatype Users =
    | Profile(user: PublicUser, progress: seq<Progress>, bookmarks: seq<Bookmark>, stats: Stats)
    | ByName(user: PublicUser)
    | Listing(data: seq<PublicUser>, total: nat)

  const NotFound := "User not found"

  function IdIs(id: string): User -> bool { (u: User) => u.id == id }
  function UsernameIs(username: string): User -> bool { (u: User) => u.username == username }
  function ProgressOf(id: string): Progress -> bool { (p: Progress) => p.userId == id }
  function BookmarkOf(id: string): Bookmark -> bool { (b: Bookmark) => b.userId == id }

  /** `p.status === 'completed'` and `p.isCorrect === true`. */
  function Completed(): Progress -> bool { (p: Progress) => p.status == "completed" }
  function Correct(): Progress -> bool { (p: Progress) => p.isCorrect }

  /** `users.map(({ password, ...user }) => user)`. */
  function StripAll(users: seq<User>): (r: seq<PublicUser>)
    ensures |r| == |users| && forall i :: 0 <= i < |users| ==> r[i] == WithoutPassword(users[i])
  {
    seq(|users|, i requires 0 <= i < |users| => WithoutPassword(users[i]))
  }

  /** The `data` of a user found by id: the user, that user's progress entries and bookmarks in
      stored order, and the counts of completed entries, correct entries and bookmarks. */
  function ProfileOf(u: User, progress: seq<Progress>, bookmarks: seq<Bookmark>): Users
  {
    var mine := Filter(progress, ProgressOf(u.id));
    var marked := Filter(bookmarks, BookmarkOf(u.id));
    Profile(WithoutPassword(u), mine, marked,
            Stats(|Filter(mine, Completed())|, |Filter(mine, Correct())|, |marked|))
  }

  /** GET /api/users. An `id` wins over a `username`; either one that matches no user gives 404;
      without both, every user in stored order and their number. */
  function Get(users: seq<User>, progress: seq<Progress>, bookmarks: seq<Bookmark>,
               id: string, username: string): (r: Reply<Users>)
    ensures id != "" ==>
              (r.Ok? <==> exists u :: u in users && u.id == id) &&
              (r.Ok? ==> r.status == 200 &&
                         exists u :: IsFirst(users, IdIs(id), u) && r.data == ProfileOf(u, progress, bookmarks)) &&
              (r.Err? ==> r == Err(404, NotFound))
    ensures id == "" && username != "" ==>
              (r.Ok? <==> exists u :: u in users && u.username == username) &&
              (r.Ok? ==> r.status == 200 &&
                         exists u :: IsFirst(users, UsernameIs(username), u) && r.data == ByName(WithoutPassword(u))) &&
              (r.Err? ==> r == Err(404, NotFound))
    ensures id == "" && username == "" ==> r == Ok(200, Listing(StripAll(users), |users|))
  {
    if id != "" then
      var user := Find(users, IdIs(id));
      FindIsFirst(users, IdIs(id));
      if user.None? then
        assert forall u :: u in users ==> !IdIs(id)(u);
        Err(404, NotFound)
      else
        Ok(200, ProfileOf(user.value, progress, bookmarks))
    else if username != "" then
      var user := Find(users, UsernameIs(username));
      FindIsFirst(users, UsernameIs(username));
      if user.None? then
        assert forall u :: u in users ==> !UsernameIs(username)(u);
        Err(404, NotFound)
      else
        Ok(200, ByName(WithoutPassword(user.value)))
    else
      Ok(200, Listing(StripAll(users), |users|))
  }

  /** What a profile lists: exactly the user's own progress entries and bookmarks, and counts
      that never exceed the number of entries. */
  lemma ProfileContents(u: User, progress: seq<Progress>, bookmarks: seq<Bookmark>)
    ensures var r := ProfileOf(u, progress, bookmarks);
            (forall p :: p in r.progress <==> p in progress && p.userId == u.id) &&
            (forall b :: b in r.bookmarks <==> b in bookmarks && b.userId == u.id) &&
            r.stats.totalCompleted <= |r.progress| && r.stats.totalCorrect <= |r.progress| &&
            r.stats.totalBookmarks == |r.bookmarks|
  {
    FilterMembers(progress, ProgressOf(u.id));
    FilterMembers(bookmarks, BookmarkOf(u.id));
  }

  /** Users lists that differ only in passwords. */
  predicate SameButPasswords(a: seq<User>, b: seq<User>)
  {
    |a| == |b| && forall i :: 0 <= i < |a| ==> WithoutPassword(a[i]) == WithoutPassword(b[i])
  }

  /** No GET answer depends on any stored password, so none can reveal one. */
  lemma PasswordsNeverShown(a: seq<User>, b: seq<User>, progress: seq<Progress>,
                            bookmarks: seq<Bookmark>, id: string, username: string)
    requires SameButPasswords(a, b)
    ensures Get(a, progress, bookmarks, id, username) == Get(b, progress, bookmarks, id, username)
  {
    forall i | 0 <= i < |a|
      ensures a[i].id == b[i].id && a[i].username == b[i].username
    {
      assert WithoutPassword(a[i]) == WithoutPassword(b[i]);
    }
    FindIndexSame(a, IdIs(id), b, IdIs(id));
    FindIndexSame(a, UsernameIs(username), b, UsernameIs(username));
    assert StripAll(a) == StripAll(b);
  }

  /** A progress entry that completes a lesson for the user adds one to `totalCompleted`
      and one to the listed progress, and leaves the bookmarks alone. */
  lemma CompletionCounted(u: User, progress: seq<Progress>, bookmarks: seq<Bookmark>, entry: Progress)
    requires entry.userId == u.id && entry.status == "completed"
    ensures var before, after := ProfileOf(u, progress, bookmarks), ProfileOf(u, progress + [entry], bookmarks);
            after.progress == before.progress + [entry] &&
            after.stats.totalCompleted == before.stats.totalCompleted + 1 &&
            after.bookmarks == before.bookmarks
  {
    FilterAppend(progress, [entry], ProgressOf(u.id));
    var mine := Filter(progress, ProgressOf(u.id));
    assert Filter(progress + [entry], ProgressOf(u.id)) == mine + [entry];
    FilterAppend(mine, [entry], Completed());
  }

  // ---------------------------------------------------------------------------
  // POST: action 'submit_answer'

  /** The progress entry the grading builds and only returns. `isCorrect` is None when there is
      no answer to compare with: the value is then undefined and JSON drops the key. */
  datatype Attempt = Attempt(id: string, userId: string, questionId: string, status: string,
                             userAnswer: string, isCorrect: Option<bool>, attempts: nat,
                             completedAt: string)

  datatype Graded = Graded(isCorrect: Option<bool>, correctAnswer: Option<string>,
                           explanation: Option<string>, progress: Attempt)

  const InvalidAction := "Invalid action"
  const MissingFields := "Missing required fields: userId, questionId, userAnswer"

  function AnswerTo(questionId: string): Answer -> bool { (a: Answer) => a.questionId == questionId }

  /** POST /api/users. Only 'submit_answer' is understood; it compares the user's answer with
      the first stored answer to the question, exactly. `stamp` is `Date.now()`, `now` the ISO
      time. Nothing is written. */
  function SubmitAnswer(answers: seq<Answer>, action: string, userId: string, questionId: string,
                        userAnswer: string, stamp: nat, now: string): (r: Reply<Graded>)
    ensures action != "submit_answer" ==> r == Err(400, InvalidAction)
    ensures action == "submit_answer" && (userId == "" || questionId == "" || userAnswer == "") ==>
              r == Err(400, MissingFields)
    ensures action == "submit_answer" && userId != "" && questionId != "" && userAnswer != "" ==>
              r.Ok? && r.status == 200 &&
              (r.data.isCorrect.None? <==> forall a :: a in answers ==> a.questionId != questionId) &&
              (r.data.isCorrect == Some(true) <==>
                 exists a :: IsFirst(answers, AnswerTo(questionId), a) && a.answer == userAnswer) &&
              (r.data.correctAnswer.Some? <==> r.data.isCorrect.Some?) &&
              (r.data.isCorrect.Some? ==>
                 exists a :: IsFirst(answers, AnswerTo(questionId), a) &&
                             r.data.correctAnswer == Some(a.answer) && r.data.explanation == Some(a.explain)) &&
              r.data.progress == Attempt("up_" + NatToString(stamp), userId, questionId, "completed",
                                         userAnswer, r.data.isCorrect, 1, now)
  {
    if action != "submit_answer" then Err(400, InvalidAction)
    else if userId == "" || questionId == "" || userAnswer == "" then Err(400, MissingFields)
    else
      var correctAnswer := Find(answers, AnswerTo(questionId));
      FindIsFirst(answers, AnswerTo(questionId));
      assert correctAnswer.None? <==> forall a :: a in answers ==> a.questionId != questionId by {
        assert forall a :: AnswerTo(questionId)(a) == (a.questionId == questionId);
      }
      var isCorrect := if correctAnswer.Some? then Some(correctAnswer.value.answer == userAnswer) else None;
      assert isCorrect == Some(true) ==> IsFirst(answers, AnswerTo(questionId), correctAnswer.value);
      assert (exists a :: IsFirst(answers, AnswerTo(questionId), a) && a.answer == userAnswer) ==>
             isCorrect == Some(true) by {
        if a :| IsFirst(answers, AnswerTo(questionId), a) && a.answer == userAnswer {
          FirstIsUnique(answers, AnswerTo(questionId), a, correctAnswer.value);
        }
      }
      Ok(200, Graded(isCorrect,
                     if correctAnswer.Some? then Some(correctAnswer.value.answer) else None,
                     if correctAnswer.Some? then Some(correctAnswer.value.explain) else None,
                     Attempt("up_" + NatToString(stamp), userId, questionId, "completed",
                             userAnswer, isCorrect, 1, now)))
  }
}
