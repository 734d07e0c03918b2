# solvefy in Dafny

solvefy is a small question-and-answer site for Vietnamese school books. Its data lives in
flat JSON arrays: subjects, grades, books, lessons, questions, answers, users, user
progress and user bookmarks. Next.js route handlers read and rewrite those arrays. Two
one-off scripts build them from a nested category tree and give every record a URL slug.
Two client pages join them for display.

This project models that logic with file I/O, HTTP and the clock taken away:

- Every collection is a `seq` of records (`Records`).
- A read handler is a function from the collections and the query parameters to a
  `Reply` (`Ok(status, data)` or `Err(status, message)`).
- A write handler is a method that also returns the array it would write back.
- A query parameter or body field that is absent, null or empty is the empty string, since
  the handlers only ever test such fields for truthiness.

| module | file | what it covers |
|---|---|---|
| `Common` | — | `find`, `findIndex`, `filter`, `slice`, `parseInt`, `includes` and number-to-text, as JavaScript defines them |
| `Records` | — | the stored records |
| `Ids` | `app/api/questions/route.ts`, `app/api/answers/route.ts` | the `max numeric suffix + 1` id |
| `SubjectsRoute`, `GradesRoute`, `BooksRoute`, `LessonsRoute` | `app/api/{subjects,grades,books,lessons}/route.ts` | lookups, AND-filters, paging, the stable sort by `sortOrder` |
| `QuestionsRoute`, `AnswersRoute` | `app/api/{questions,answers}/route.ts` | listing and creation |
| `Bookmarks`, `ProgressRoute` | `app/api/{bookmarks,progress}/route.ts` | add-if-absent, remove-first-match, upsert |
| `UsersRoute`, `LoginRoute`, `SolveRoute` | `app/api/users/route.ts`, `app/api/auth/login/route.ts`, `app/api/solve/route.ts` | password stripping, stats, grading, the credential check, the legacy aggregate |
| `Slugs` | `scripts/generate-slugs.js` | `generateSlug` and the slug assignment over each collection |
| `Flatten` | `scripts/flatten-categories.js` | the tree-to-tables loop and its relationship validation |
| `HomePage` | `app/page.tsx` | the book shelf join, search, grouping, the collapsed-grade and bookmark sets |
| `ProfilePage` | `app/profile/page.tsx` | bookmark and progress enrichment, the stats, the role labels |
| `VideoPlayer` | `app/components/VideoPlayer.tsx` | the duration label and the YouTube and Vimeo embed URLs |
| `Sitemap` | `app/sitemap.ts` | the ordered list of sitemap entries |

The code works in two styles, and the model follows each one:

- Code that mutates in place becomes imperative Dafny, proved equal to a specification
  function whose properties are proved as lemmas:
  - the `push` loops of the flattening script and of the sitemap;
  - the validation counters;
  - the in-place `sort` of lessons, an insertion sort on an `array`;
  - the `forEach` slug assignments on an `array`;
  - the nested search with `break`s on the profile page;
  - the grouping of books into a dictionary.
- Everything else is functions and lemmas.

## Model

| member | source | states |
|---|---|---|
| Common.FilterCount | app/api/questions/route.ts:15 | `filter` keeps every passing record as many times as the list holds it and drops every other |
| Ids.MaxOfBounds | app/api/questions/route.ts:47-50 | the `reduce` from 0 is at least 0, bounds every parsed suffix, and is 0 or one of them (a NaN suffix never wins) |
| Ids.MaxIdBounds | app/api/answers/route.ts:47-50 | maxId over ids bounds `parseInt(id.substring(1))` of every id and is 0 or one of those values |
| Ids.IdsOf | app/api/questions/route.ts:47-50 | the ids the `reduce` visits: one per stored record, in stored order, shared by the question and answer routes |
| Ids.NewIdIsFresh | app/api/questions/route.ts:51 | the new id `<prefix><maxId+1>` differs from every existing id and parses back to maxId+1 |
| SubjectsRoute.Get | app/api/subjects/route.ts:19-40 | with an id: 200 with the first subject having it, else 404 "Subject not found"; without: the whole list in stored order with its length |
| GradesRoute.Get | app/api/grades/route.ts:20-47 | with an id: the first grade having it or 404; else exactly the grades of subjectId in stored order (all when absent), total = length, subjectId echoed only when given |
| BooksRoute.FilteredIsConjunction | app/api/books/route.ts:58-76 | the chain of optional filters equals one filter by the conjunction of the given conditions |
| BooksRoute.FilteredMembers | app/api/books/route.ts:58-76 | a book is listed iff it is stored and passes every given filter (publisher: case-insensitive substring) |
| BooksRoute.DefaultPaging | app/api/books/route.ts:30-31 | without page and limit, page is 1 and limit is 20 |
| BooksRoute.TotalPages | app/api/books/route.ts:80 | `Math.ceil(total/limit)`: NaN or infinite exactly for a NaN or zero limit; otherwise the least multiple count covering total (and the negative-limit case) |
| BooksRoute.PageBounds | app/api/books/route.ts:81-83 | for page, limit >= 1 the data is the window [(page-1)*limit, (page-1)*limit+limit) of the filtered list, at most limit long, empty past totalPages |
| BooksRoute.PagesPrefix | app/api/books/route.ts:81-83 | pages 1..n concatenated are the first min(n*limit, total) books |
| BooksRoute.AllPages | app/api/books/route.ts:79-83 | pages 1..totalPages concatenated give back the whole filtered list |
| BooksRoute.Get | app/api/books/route.ts:25-95 | id beats slug, each a first-match lookup or 404 "Book not found"; otherwise the page of the filtered list with total, page, limit, totalPages and the filter echo |
| LessonsRoute.FilteredIsConjunction | app/api/lessons/route.ts:54-70 | the chain of optional bookId/subjectId/gradeId filters is one filter by their conjunction |
| LessonsRoute.SortBySortOrder | app/api/lessons/route.ts:73 | the in-place sort leaves the array equal to the stable insertion-sort specification of its old contents |
| LessonsRoute.InsertInto | app/api/lessons/route.ts:73 | one in-place insertion step equals InsertLast on the sorted prefix and leaves the rest alone |
| LessonsRoute.InsertLastSorted | app/api/lessons/route.ts:73 | inserting into a list sorted by sortOrder keeps it sorted |
| LessonsRoute.InsertLastPermutes | app/api/lessons/route.ts:73 | inserting adds exactly the one lesson (multiset) |
| LessonsRoute.InsertLastStable | app/api/lessons/route.ts:73 | among lessons of one sortOrder, the inserted one comes after the earlier ones |
| LessonsRoute.SortSpecSorted | app/api/lessons/route.ts:73 | the sorted list is ordered by sortOrder and is a permutation of the input |
| LessonsRoute.SortSpecStable | app/api/lessons/route.ts:73 | lessons that share a sortOrder keep their stored order |
| LessonsRoute.Get | app/api/lessons/route.ts:23-82 | id beats slug, each a first-match lookup or 404 "Lesson not found"; otherwise the filtered lessons sorted, total = length, the filter echo |
| LessonsRoute.ListingIsSortedSelection | app/api/lessons/route.ts:54-79 | a listing holds exactly the stored lessons passing every filter, sorted by sortOrder, as a permutation, ties in stored order |
| QuestionsRoute.Get | app/api/questions/route.ts:11-19 | with a lessonId the `filter` of the stored list by that lesson, so stored order is kept and each of the lesson's questions appears as often as it is stored and no other does; otherwise all |
| QuestionsRoute.Post | app/api/questions/route.ts:33-71 | a missing lessonId, title, content or userId gives 400 and writes nothing; else a fresh `q` id, a record with no title and no slug and createdBy = userId, appended at the end |
| AnswersRoute.Get | app/api/answers/route.ts:11-19 | with a questionId the `filter` of the stored list by that question, in stored order, each of its answers as often as stored and no other; otherwise all |
| AnswersRoute.Post | app/api/answers/route.ts:33-72 | a missing questionId, answer or userId gives 400 and writes nothing; else a fresh `a` id, explain '' when missing, createdBy = userId, appended at the end |
| Bookmarks.Get | app/api/bookmarks/route.ts:11-21 | with a userId the `filter` of the stored list by that user, in stored order, each of the user's bookmarks as often as stored and no other; otherwise all |
| Bookmarks.Post | app/api/bookmarks/route.ts:35-71 | missing field: 400, list unchanged; pair already there: 400 "Already bookmarked", list unchanged; else exactly one record appended; pair uniqueness preserved |
| Bookmarks.AppendKeepsUnique | app/api/bookmarks/route.ts:47-65 | appending a pair not yet present keeps pairs unique |
| Bookmarks.Delete | app/api/bookmarks/route.ts:85-114 | missing parameter: 400; no match: 404; both leave the list; else the first matching entry is spliced out; pair uniqueness preserved, and with unique pairs the pair is gone afterwards |
| Bookmarks.WithoutFirstRemovesFirstMatch | app/api/bookmarks/route.ts:97-108 | the splice removes exactly the first entry for the pair: one entry fewer, the rest in order |
| Bookmarks.DeleteKeepsUnique | app/api/bookmarks/route.ts:97-108 | with unique pairs, the list after DELETE has unique pairs and no longer holds the pair |
| Bookmarks.SpliceKeepsUnique | app/api/bookmarks/route.ts:108 | removing any one entry keeps pairs unique |
| Bookmarks.SpliceDropsPair | app/api/bookmarks/route.ts:108 | with unique pairs, removing entry k leaves no entry with its pair |
| Bookmarks.DeleteUndoesPost | app/api/bookmarks/route.ts:58-66 | a successful POST followed by DELETE of the same pair restores the list |
| ProgressRoute.Get | app/api/progress/route.ts:20-49 | both ids: the first entry for the pair or null; userId only: the `filter` of the stored list by that user, in stored order, each entry as often as stored, with total its length; neither: all entries and their count |
| ProgressRoute.Post | app/api/progress/route.ts:67-112 | missing field: 400, unchanged; existing pair: only completedAt of the first match changes, same length; else one 'completed' entry appended with 201; one entry per lesson preserved |
| ProgressRoute.TouchKeepsOnePerLesson | app/api/progress/route.ts:86 | refreshing a timestamp keeps one entry per (userId, lessonId) |
| ProgressRoute.AppendKeepsOnePerLesson | app/api/progress/route.ts:97-105 | appending an entry for a new pair keeps one entry per pair |
| ProgressRoute.TouchedChangesOnlyTimestamp | app/api/progress/route.ts:86 | the refresh changes only completedAt of that one entry: same length, every other entry and field unchanged |
| UsersRoute.StripAll | app/api/users/route.ts:76 | the list path sends every user, in order, without the password |
| UsersRoute.Get | app/api/users/route.ts:20-81 | id beats username; an unknown one gives 404 "User not found"; the id path gives the user without password plus profile; the list path all users stripped with their count |
| UsersRoute.ProfileContents | app/api/users/route.ts:37-53 | the profile lists exactly the user's progress entries and bookmarks; totalBookmarks is their count and the other two counts never exceed the entries |
| UsersRoute.PasswordsNeverShown | app/api/users/route.ts:41-76 | two user lists that differ only in passwords give equal GET answers |
| UsersRoute.CompletionCounted | app/api/users/route.ts:50 | a completed entry of the user adds one to totalCompleted and one more progress entry |
| UsersRoute.SubmitAnswer | app/api/users/route.ts:100-143 | other actions: 400 "Invalid action"; a missing field: 400; else isCorrect is absent iff no answer exists, and true iff the first answer equals userAnswer exactly; nothing is written |
| LoginRoute.Login | app/api/auth/login/route.ts:7-44 | a missing field: 400; no user with the username: 401 "Tên đăng nhập không tồn tại"; a different password of the first such user: 401 "Mật khẩu không chính xác"; else that user without password |
| LoginRoute.LoginAgreesWithLookup | app/api/auth/login/route.ts:21-42 | login succeeds iff the password equals the stored one of the first user with the username, and it returns what GET /api/users?username= returns |
| LoginRoute.UnknownUserIgnoresPassword | app/api/auth/login/route.ts:23-28 | an unknown username is refused the same way whatever the password |
| SolveRoute.Pick | app/api/solve/route.ts:46-47 | the question is none iff no question has the id, else the first one; independently the answer is none iff no answer is to it, else the first one |
| SolveRoute.Get | app/api/solve/route.ts:32-59 | with a questionId the pair Pick gives; otherwise the six collections unchanged, users with passwords, and no answers key |
| SolveRoute.AggregateRevealsPasswords | app/api/solve/route.ts:52-59 | two user lists differing only in one password give different aggregates |
| SolveRoute.GetWithoutPasswords | app/api/solve/route.ts:45-59 | the aggregate as intended: users as GET /api/users sends them |
| SolveRoute.CorrectedHidesPasswords | app/api/solve/route.ts:52-59 | the corrected aggregate does not depend on any stored password |
| Slugs.Replace | scripts/generate-slugs.js:12-13 | `replace(/x/g, y)`: same length, x replaced by y at every position, nothing else changed |
| Slugs.CollapseRunsShape | scripts/generate-slugs.js:15-16 | after `replace(/p+/g, c)` every character is c or outside p, a run of p at either end becomes c, and no two c stand side by side when c is in p |
| Slugs.CollapseRunsAlphabet | scripts/generate-slugs.js:15-16 | any character class holding c and every input character holds every output character |
| Slugs.GenerateSlug | scripts/generate-slugs.js:11-17 | the slug holds only a-z, 0-9 and '-', and never two hyphens in a row |
| Slugs.HyphenatedIsSlug | scripts/generate-slugs.js:14-16 | before the trim the text is already slug text without double hyphens and trim leaves it alone |
| Slugs.TrimIsNoOp | scripts/generate-slugs.js:17 | the final trim never changes the result |
| Slugs.TrimNoSpace | scripts/generate-slugs.js:17 | trim changes nothing on text without white space |
| Slugs.CollapseRunsNone | scripts/generate-slugs.js:15 | collapsing runs of a class absent from the text is the identity |
| Slugs.CollapseSingleHyphens | scripts/generate-slugs.js:16 | collapsing hyphen runs is the identity when no two hyphens are adjacent |
| Slugs.GenerateSlugIdempotent | scripts/generate-slugs.js:7-18 | generateSlug of a slug is that slug |
| Slugs.SlugOfTextIdempotent | scripts/generate-slugs.js:7-18 | for any folding that leaves slug text alone, the whole generateSlug is idempotent |
| Slugs.ReplaceAbsent | scripts/generate-slugs.js:12-13 | replacing a character that does not occur changes nothing |
| Slugs.LeadingSpaceGivesHyphen | scripts/generate-slugs.js:15-17 | text beginning with white space gives a slug beginning with '-' |
| Slugs.TrailingSpaceGivesHyphen | scripts/generate-slugs.js:15-17 | text ending with white space gives a slug ending with '-' |
| Slugs.CleanedKeepsTrailingSpace | scripts/generate-slugs.js:11-14 | the first rewrites keep a trailing white-space character |
| Slugs.PlainTextKeepsAlnum | scripts/generate-slugs.js:14 | on text with no space, hyphen, accent or d-with-stroke the slug is its a-z0-9 characters in order, others dropped without a separator |
| Slugs.CleanedPlain | scripts/generate-slugs.js:11-14 | the same for the first four rewrites alone |
| Slugs.DStrokeBecomesD | scripts/generate-slugs.js:12-13 | "đ" and "Đ" both become "d" |
| Slugs.PlusIsDropped | scripts/generate-slugs.js:14 | "2+2" becomes "22" |
| Slugs.AddSlugsToSubjects | scripts/generate-slugs.js:31-41 | each subject gets slug = generateSlug(name), every other field and the order kept |
| Slugs.AddSlugsToGrades | scripts/generate-slugs.js:46-56 | each grade gets slug = generateSlug(name), every other field kept |
| Slugs.AddSlugsToBooks | scripts/generate-slugs.js:61-71 | each book gets slug = generateSlug(name) + "-" + id, every other field kept |
| Slugs.AddSlugsToLessons | scripts/generate-slugs.js:76-86 | each lesson gets slug = generateSlug(name) + "-" + id, every other field kept |
| Slugs.ShortTitle | scripts/generate-slugs.js:96 | `substring(0, 50)`: a prefix of the title, the whole title when it has at most 50 characters, else exactly its first 50 |
| Slugs.AddSlugsToQuestions | scripts/generate-slugs.js:91-102 | completes iff every question has a title; then each slug is generateSlug(first 50 of title) + "-" + id, other fields kept |
| Flatten.SubjectIcon | scripts/flatten-categories.js:12-20 | the mapped icon for the four known names, the books icon exactly otherwise |
| Flatten.FirstDigitRun | scripts/flatten-categories.js:23 | the `/\d+/` match: empty iff the name has no digit, else digits only |
| Flatten.GradeLevelWithoutDigits | scripts/flatten-categories.js:22-25 | a name without digits is level 1 |
| Flatten.GradeLevelOfName | scripts/flatten-categories.js:22-25 | a number after digit-free text, not followed by a digit, is the level |
| Flatten.FirstRunAfterPrefix | scripts/flatten-categories.js:23 | the match of prefix + digits + suffix is those digits when the prefix has none and the suffix does not start with one |
| Flatten.Publisher | scripts/flatten-categories.js:27-32 | the three series checked in priority order, each result iff its name occurs and no earlier one does, else 'Unknown' |
| Flatten.FlatMapAppend | scripts/flatten-categories.js:43-115 | the rows of two forests side by side are the rows of the first then the second |
| Flatten.FlatMapMember | scripts/flatten-categories.js:43-115 | a row is emitted iff some node produces it |
| Flatten.Flattened | scripts/flatten-categories.js:43-115 | the nested push loops build exactly the four tables of the tree |
| Flatten.PushGrades | scripts/flatten-categories.js:58-113 | one subject's loop appends its grades, books and lessons to the tables |
| Flatten.PushBooks | scripts/flatten-categories.js:74-111 | one grade's loop appends its books and lessons |
| Flatten.PushLessons | scripts/flatten-categories.js:93-110 | one book's loop appends its lessons |
| Flatten.TablesFollowTree | scripts/flatten-categories.js:43-115 | row i of each table is the i-th node of that depth in depth-first order, same id and name, so table sizes equal node counts |
| Flatten.TablesOfAppend | scripts/flatten-categories.js:43 | the tables of two forests side by side are the first's followed by the second's |
| Flatten.GradeOrigin | scripts/flatten-categories.js:60-71 | every grade row comes from a grade under a subject, subjectId that subject's id |
| Flatten.BookOrigin | scripts/flatten-categories.js:76-90 | every book row comes from a book under a grade under a subject, with their ids |
| Flatten.LessonOrigin | scripts/flatten-categories.js:95-108 | every lesson row comes from a lesson under a book, grade and subject, with their ids |
| Flatten.SubjectRowPresent | scripts/flatten-categories.js:45-55 | every subject node gets its row |
| Flatten.GradeRowPresent | scripts/flatten-categories.js:60-71 | every grade node gets its row |
| Flatten.BookRowPresent | scripts/flatten-categories.js:76-90 | every book node gets its row |
| Flatten.FlattenedIsResolved | scripts/flatten-categories.js:58-114 | every foreign key of the tables names a row of the table it points into |
| Flatten.Validate | scripts/flatten-categories.js:167-214 | the three validation loops count exactly ValidationErrors |
| Flatten.CheckGrades | scripts/flatten-categories.js:170-176 | the grade loop adds one per grade whose subject is missing |
| Flatten.CheckBooks | scripts/flatten-categories.js:179-192 | the book loop adds one per missing grade and one per missing subject |
| Flatten.CheckLessons | scripts/flatten-categories.js:195-214 | the lesson loop adds one per missing book, grade and subject |
| Flatten.MissingSubject | scripts/flatten-categories.js:171-172 | the `find` fails iff no subject has the id |
| Flatten.MissingGrade | scripts/flatten-categories.js:180-183 | the `find` fails iff no grade has the id |
| Flatten.MissingBook | scripts/flatten-categories.js:196-200 | the `find` fails iff no book has the id |
| Flatten.GradeErrorsZero | scripts/flatten-categories.js:170-176 | the grade count is 0 iff every grade's subject exists |
| Flatten.BookErrorsZero | scripts/flatten-categories.js:179-192 | the book count is 0 iff every book's grade and subject exist |
| Flatten.LessonErrorsZero | scripts/flatten-categories.js:195-214 | the lesson count is 0 iff every lesson's book, grade and subject exist |
| Flatten.ValidationErrorsZero | scripts/flatten-categories.js:167-220 | the validation reports 0 iff every reference resolves |
| Flatten.FlattenedValidates | scripts/flatten-categories.js:167-220 | on freshly flattened tables validationErrors is always 0 |
| Flatten.RowsAreActive | scripts/flatten-categories.js:50-51 | every emitted row has sortOrder 0 and isActive true |
| HomePage.Enrich | app/page.tsx:95-105 | the book kept; subjectName the first matching subject's name or ''; gradeName needs a grade matching gradeId and subjectId, else ''; children the `filter` of the lessons by bookId, in lesson order, each of the book's lessons as often as stored and no other |
| HomePage.AllBooks | app/page.tsx:94-107 | one entry per book in the books' order, each the enrichment of its book |
| HomePage.FilteredBooks | app/page.tsx:110-117 | a book is kept iff the search is empty or a case-insensitive substring of the name, and the subject is "all" or the id starts with 'bk' and the subjectId matches |
| HomePage.NoFilterShowsAll | app/page.tsx:110-117 | an empty search with "all" keeps every book |
| HomePage.GroupBooks | app/page.tsx:120-128 | the forEach builds exactly the grouping specification |
| HomePage.GroupsAreFilters | app/page.tsx:120-128 | a group exists iff some book belongs to it, and then holds exactly those books in their order |
| HomePage.Toggle | app/page.tsx:130-137 | toggleGrade flips membership of that one id and no other |
| HomePage.ToggleTwice | app/page.tsx:130-137 | toggling the same id twice changes nothing |
| HomePage.AfterToggleBookmark | app/page.tsx:58-91 | a successful request flips the book's membership, a failed one changes nothing |
| HomePage.ToggleStaysInSync | app/page.tsx:40-91 | a set loaded from the stored bookmarks stays equal to the set of the list the server writes |
| HomePage.LoadedSetHasPair | app/page.tsx:42-47 | a book is in the loaded set iff the user's pair is stored |
| HomePage.DeleteSync | app/page.tsx:67-76 | after the DELETE the loaded set is the old one without the book |
| HomePage.PostSync | app/page.tsx:78-85 | after the POST the loaded set is the old one with the book |
| ProfilePage.HitIsFirstPlace | app/profile/page.tsx:57-71 | the nested search finds the first (subject, grade, book) in traversal order whose book has the id |
| ProfilePage.PlacesMembers | app/profile/page.tsx:57-59 | the traversal visits exactly the books under the grades under the subjects |
| ProfilePage.ViewOf | app/profile/page.tsx:55-73 | the bookmark is kept; it is enriched iff categories exist and some book has its bookId, then from the first such place |
| ProfilePage.EnrichBookmark | app/profile/page.tsx:55-73 | the nested loops with their breaks compute ViewOf |
| ProfilePage.BookmarksWithDetails | app/profile/page.tsx:54-74 | one view per bookmark, same length and order |
| ProfilePage.WithoutCategoriesNothingIsEnriched | app/profile/page.tsx:56-73 | without categories every bookmark comes back unchanged |
| ProfilePage.ProgressViewOf | app/profile/page.tsx:77-83 | the entry kept; content present iff a question matches; title the first match's non-empty title, else the questionId |
| ProfilePage.EnrichProgress | app/profile/page.tsx:77-84 | one view per progress entry, in order, each being ProgressViewOf that entry (title and content of its first matching question) |
| ProfilePage.ProgressNeverShown | app/profile/page.tsx:77-86 | reading the key the page reads from the progress reply gives 0 completed and no entries |
| ProfilePage.CompletedLessonNotCounted | app/profile/page.tsx:86 | a user with one completed lesson is shown 0 though GET /api/users counts 1 |
| ProfilePage.ReadingDataMatchesUserStats | app/profile/page.tsx:77-92 | reading `data` instead, the count equals GET /api/users' totalCompleted and the entries are the user's progress |
| ProfilePage.RoleLabel | app/profile/page.tsx:113-124 | the three labels for the three roles; the role itself exactly for any other |
| ProfilePage.RoleBadgeColor | app/profile/page.tsx:126-137 | the three colours for the three roles; gray exactly for any other |
| ProfilePage.KnownRolesAreTellable | app/profile/page.tsx:113-137 | two different known roles get different labels and different colours |
| VideoPlayer.JsRem | app/components/VideoPlayer.tsx:18 | JavaScript `%`: magnitude below the divisor, sign of the dividend |
| VideoPlayer.PadStart | app/components/VideoPlayer.tsx:19 | `padStart`: at least n long, the text kept at the end |
| VideoPlayer.FormatDuration | app/components/VideoPlayer.tsx:15-20 | '' exactly for null or 0 |
| VideoPlayer.TwoDigitSeconds | app/components/VideoPlayer.tsx:19 | seconds below 60 print as exactly two digits with that value |
| VideoPlayer.FormatDurationReadsBack | app/components/VideoPlayer.tsx:17-19 | for s > 0 the label is m:ss with two-digit ss < 60 and m*60 + ss == s |
| VideoPlayer.CaptureAt | app/components/VideoPlayer.tsx:23-28 | a capture at i exists iff the literal occurs there followed by an allowed character, and is then the maximal run |
| VideoPlayer.SearchIsLeftmost | app/components/VideoPlayer.tsx:23-28 | the regex search finds nothing iff no position matches, else the leftmost match |
| VideoPlayer.YouTubeEmbedUrl | app/components/VideoPlayer.tsx:22-25 | the URL unchanged when nothing matches; else the embed prefix plus the maximal non-'&', non-space run after the leftmost watch or short link |
| VideoPlayer.NoYouTubeMatchWithoutY | app/components/VideoPlayer.tsx:23-24 | no YouTube match starts at a position whose character is not 'y' |
| VideoPlayer.ShortLinkEmbeds | app/components/VideoPlayer.tsx:23-24 | `https://youtu.be/<id><rest>` embeds exactly id, when rest is empty or starts with '&' |
| VideoPlayer.VimeoEmbedUrl | app/components/VideoPlayer.tsx:27-30 | the URL unchanged when nothing matches; else the player prefix plus the maximal digit run after the leftmost "vimeo.com/" |
| VideoPlayer.VimeoLinkEmbeds | app/components/VideoPlayer.tsx:28-29 | `https://vimeo.com/<digits><rest>` embeds exactly the digits, when rest is empty or starts with a non-digit |
| Sitemap.Under | app/sitemap.ts:41-69 | one child entry per child of the parent, in the children's order |
| Sitemap.PushBlock | app/sitemap.ts:32-49 | one parent's forEach step appends its entry and then its children's entries |
| Sitemap.PushSection | app/sitemap.ts:32-71 | the outer forEach appends the whole section |
| Sitemap.SectionLength | app/sitemap.ts:32-71 | a section has one entry per parent plus one per belonging child |
| Sitemap.SectionAppend | app/sitemap.ts:32-71 | the section of two parent lists is the first's section then the second's |
| Sitemap.SectionMembers | app/sitemap.ts:32-71 | an entry is in a section iff it is a parent's entry or a belonging child's entry |
| Sitemap.Questions | app/sitemap.ts:74-81 | one question entry per question, in file order |
| Sitemap.Build | app/sitemap.ts:16-81 | the pushes build exactly the specified list |
| Sitemap.SitemapShape | app/sitemap.ts:16-81 | base URL first, login second, the questions last, and the count 2 + subjects + their grades + books + their lessons + questions |
| Sitemap.SubjectThenItsGrades | app/sitemap.ts:32-50 | subject i's entry is immediately followed by exactly its grades' entries |
| Sitemap.BookThenItsLessons | app/sitemap.ts:53-71 | book i's entry is immediately followed by exactly its lessons' entries |
| Sitemap.ChildEntries | app/sitemap.ts:41-69 | the priority-0.8 entries are exactly the grade entries of pairs with g.subjectId == s._id, the priority-0.6 entries exactly the lesson entries of pairs with l.bookId == b._id; a grade or lesson with no such parent gets none |
| Sitemap.SluglessQuestionsShareUrl | app/sitemap.ts:76 | two questions without slugs both get the URL /cau-hoi/undefined |

## Left out

- File reading and writing, `JSON.parse`/`JSON.stringify`, the `NextResponse` envelopes and the catch-all 500 branches. Collections are inputs and outputs.
- The clock: `Date.now()` ids (`ub…`, `up…`, `up_…`) and `new Date()` timestamps are parameters; their uniqueness is not claimed. The sitemap's `lastModified` dates are not modelled.
- Concurrency: each handler is one sequential transformation, so races between overlapping requests are out of scope.
- `toLowerCase().normalize('NFD')` at the head of generateSlug: Unicode case mapping and decomposition are not modelled. `Slugs.GenerateSlug` starts from the folded text, and the assignment methods take the folding as a parameter.
- Case-insensitive comparisons (the publisher filter, the home page search) fold ASCII A–Z only.
- `parseInt` is modelled for leading white space, a sign, a `0x` prefix and decimal digits; digits beyond 2^53 are exact here, not rounded as in a double.
- JSON values of a type other than the one the code expects (a number where a string is read, a non-array body) are not modelled. The profile page's `.filter` on a non-array reply is modelled as no list.
- Object keys that collide with JavaScript prototype members (the icon table, the grouping dictionary).
- Floating point: sitemap priorities are integer tenths, the completion percentage with `Math.round` on the profile page is not modelled, and formatDuration is defined for integer seconds only.
- VideoPlayer.FormatDuration: negative seconds are modelled (JavaScript `%` and `Math.floor`), but the read-back property is stated for positive seconds only.
- `substring(0, 50)` counts UTF-16 code units; here it counts characters.
- The rendering, the `useEffect` fetch chains, the `isPlaying` state, the `if (!user)` guard of handleToggleBookmark, and `getUserInfo` on the home page.
- HomePage.GroupsAreFilters: the group sizes are not stated as a sum equal to the filtered count. Each group is the filter of the books for its subject and grade, which partitions them.
- `createdBy`, `description`, `coverImageUrl`, `publicationYear`, `content` and the dates of the flattened rows are not modelled; the rows carry id, name, foreign keys, icon, level, publisher, sortOrder and isActive.
- The solve endpoint never sends `categories`, so the profile page's bookmark enrichment never fires against the real server. `ProfilePage.WithoutCategoriesNothingIsEnriched` states it. The enrichment is still modelled for a reply that has categories.
- A duplicate bookmark is refused with 400 (not 409). A question created by POST /api/questions has no title and no slug. `Slugs.AddSlugsToQuestions` therefore fails on such a question, as `question.title.substring` throws. Slugs may begin or end with a hyphen. The model follows the code on each of these.

## Findings

| source | as written | input that shows it | evidently intended | confidence | as-written member | corrected member |
|---|---|---|---|---|---|---|
| app/api/solve/route.ts:52-59 | the aggregate returns the users array as stored, passwords included | GET /api/solve with no questionId and a users file holding `{username: "hocsinh", password: "123456"}` | users without passwords, as GET /api/users (line 76) and the login (line 39) send them | high, not executed | SolveRoute.AggregateRevealsPasswords | SolveRoute.CorrectedHidesPasswords |
| app/profile/page.tsx:77-86 | the page reads `progressData.progress`, but GET /api/progress?userId= answers `{success, data, meta}` (app/api/progress/route.ts:37-41) | user u1 with one completed progress entry: the page shows 0 completed and no progress list | read `progressData.data`, giving the count GET /api/users reports as totalCompleted | high, not executed | ProfilePage.CompletedLessonNotCounted | ProfilePage.ReadingDataMatchesUserStats |
