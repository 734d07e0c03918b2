/** GET /api/grades (app/api/grades/route.ts): one grade by id, or the grades of a subject,
    or all of them. A query parameter that is absent or empty is "". */
module GradesRoute {
  import opened Common
  import opened Records

  datatype Grades = One(grade: Grade) | Listing(data: seq<Grade>, total: nat, filters: Option<string>)

  const NotFound := "Grade not found"

  function IdIs(id: string): Grade -> bool { (g: Grade) => g.id == id }
  function SubjectIs(subjectId: string): Grade -> bool { (g: Grade) => g.subjectId == subjectId }

  /** GET /api/grades. With an `id`, the first grade with that id or 404; otherwise the grades
      of `subjectId` in stored order (all grades when it is absent), their count, and the
      subjectId echoed only when it was given. */
  function Get(grades: seq<Grade>, id: string, subjectId: string): (r: Reply<Grades>)
    ensures id != "" ==>
              (r.Ok? <==> exists g :: g in grades && g.id == id) &&
              (r.Ok? ==> r.status == 200 && r.data.One? && IsFirst(grades, IdIs(id), r.data.grade)) &&
              (r.Err? ==> r == Err(404, NotFound))
    ensures id == "" ==> r.Ok? && r.status == 200 && r.data.Listing? && r.data.total == |r.data.data|
    ensures id == "" && subjectId == "" ==> r.data == Listing(grades, |grades|, None)
    ensures id == "" && subjectId != "" ==>
              r.data.filters == Some(subjectId) &&
              (forall g :: g in r.data.data <==> g in grades && g.subjectId == subjectId) &&
              r.data.data == Filter(grades, SubjectIs(subjectId))
  {
    if id != "" then
      var grade := Find(grades, IdIs(id));
      FindIsFirst(grades, IdIs(id));
      if grade.None? then
        assert forall g :: g in grades ==> !IdIs(id)(g);
        Err(404, NotFound)
      else
        Ok(200, One(grade.value))
    else
      var filteredGrades := if subjectId != "" then Filter(grades, SubjectIs(subjectId)) else grades;
      FilterMembers(grades, SubjectIs(subjectId));
      Ok(200, Listing(filteredGrades, |filteredGrades|, if subjectId != "" then Some(subjectId) else None))
  }
}
