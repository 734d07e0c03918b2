/** GET /api/subjects (app/api/subjects/route.ts): one subject by id, or all of them. */
module SubjectsRoute {
  import opened Common
  import opened Records

  datatype Subjects = One(subject: Subject) | Listing(data: seq<Subject>, total: nat)

  const NotFound := "Subject not found"

  function IdIs(id: string): Subject -> bool { (s: Subject) => s.id == id }

  /** GET /api/subjects. With an `id` (absent or empty is ""), the first subject with that id
      or 404; otherwise the stored list unchanged, with its length. */
  function Get(subjects: seq<Subject>, id: string): (r: Reply<Subjects>)
    ensures id != "" ==>
              (r.Ok? <==> exists s :: s in subjects && s.id == id) &&
              (r.Ok? ==> r.status == 200 && r.data.One? && IsFirst(subjects, IdIs(id), r.data.subject)) &&
              (r.Err? ==> r == Err(404, NotFound))
    ensures id == "" ==> r == Ok(200, Listing(subjects, |subjects|))
  {
    if id != "" then
      var subject := Find(subjects, IdIs(id));
      FindIsFirst(subjects, IdIs(id));
      if subject.None? then
        assert forall s :: s in subjects ==> !IdIs(id)(s);
        Err(404, NotFound)
      else
        Ok(200, One(subject.value))
    else
      Ok(200, Listing(subjects, |subjects|))
  }
}
