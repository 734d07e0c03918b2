/** The records held in the application's flat JSON collections (one JSON array per file under app/data).
    The JSON key `_id` (or `id`) is the field `id` throughout. An optional string key the
    code reads without a fallback is an Option; every other string is required. */
module Records {
  import opened Common

  datatype Subject = Subject(id: string, name: string, slug: string, icon: string,
                             sortOrder: int, isActive: bool)

  datatype Grade = Grade(id: string, subjectId: string, name: string, slug: string,
                         level: int, sortOrder: int, isActive: bool)

  datatype Book = Book(id: string, gradeId: string, subjectId: string, name: string,
                       publisher: string, slug: string, sortOrder: int, isActive: bool)

  datatype Lesson = Lesson(id: string, bookId: string, gradeId: string, subjectId: string,
                           name: string, slug: string, sortOrder: int, isActive: bool)

  /** A question created through POST /api/questions has neither a title nor a slug. */
  datatype Question = Question(id: string, lessonId: string, title: Option<string>,
                               content: string, slug: Option<string>, createdBy: string,
                               createdAt: string, updatedAt: string)

  datatype Answer = Answer(id: string, questionId: string, answer: string, explain: string,
                           createdBy: string, createdAt: string, updatedAt: string)

  datatype User = User(id: string, username: string, password: string, fullName: string,
                       role: string, avatar: string)

  /** A user record as the API sends it: every key but `password`. */
  datatype PublicUser = PublicUser(id: string, username: string, fullName: string,
                                   role: string, avatar: string)

  /** The destructuring `const { password, ...rest } = user`. */
  function WithoutPassword(u: User): PublicUser
  {
    PublicUser(u.id, u.username, u.fullName, u.role, u.avatar)
  }

  datatype Bookmark = Bookmark(id: string, userId: string, bookId: string, bookmarkedAt: string)

  /** A progress entry. Entries written by POST /api/progress carry no `questionId`;
      `isCorrect` is true exactly when the stored value is the boolean true. */
  datatype Progress = Progress(id: string, userId: string, lessonId: string,
                               questionId: Option<string>, status: string, isCorrect: bool,
                               completedAt: string)
}
