/** /api/progress (app/api/progress/route.ts): which lessons a user has completed, kept in
    user_progress.json with at most one entry per (userId, lessonId). */
module ProgressRoute {
  import opened Common
  import opened Records

  predicate SameLesson(p: Progress, userId: string, lessonId: string)
  {
    p.userId == userId && p.lessonId == lessonId
  }

  function LessonIs(userId: string, lessonId: string): Progress -> bool
  {
    (p: Progress) => SameLesson(p, userId, lessonId)
  }

  function OfUser(userId: string): Progress -> bool
  {
    (p: Progress) => p.userId == userId
  }

  predicate HasEntry(progress: seq<Progress>, userId: string, lessonId: string)
  {
    exists i :: 0 <= i < |progress| && SameLesson(progress[i], userId, lessonId)
  }

  /** At most one entry per (userId, lessonId). */
  predicate OnePerLesson(progress: seq<Progress>)
  {
    forall i, j :: 0 <= i < j < |progress| ==>
      !SameLesson(progress[j], progress[i].userId, progress[i].lessonId)
  }

  /** What GET answers: one entry (or null) when both ids are given, else a list and its length. */
  datatype Answer = Entry(entry: Option<Progress>) | Entries(data: seq<Progress>, total: nat)

  /** GET: the user's entry for the lesson; or all the user's entries; or, without a userId
      (even when a lessonId is given), every entry. */
  function Get(progress: seq<Progress>, userId: string, lessonId: string): (r: Answer)
    ensures userId != "" && lessonId != "" ==>
              r.Entry? && (r.entry.None? <==> !HasEntry(progress, userId, lessonId)) &&
              (r.entry.Some? ==> SameLesson(r.entry.value, userId, lessonId) &&
                                 r.entry.value == progress[FindIndex(progress, LessonIs(userId, lessonId))])
    ensures userId != "" && lessonId == "" ==>
              r.Entries? && r.total == |r.data| && r.data == Filter(progress, OfUser(userId)) &&
              (forall p :: p in r.data <==> p in progress && p.userId == userId) &&
              forall p :: multiset(r.data)[p] == if p.userId == userId then multiset(progress)[p] else 0
    ensures userId == "" ==> r == Entries(progress, |progress|)
  {
    if userId != "" && lessonId != "" then
      var found := Find(progress, LessonIs(userId, lessonId));
      assert found.None? <==> !HasEntry(progress, userId, lessonId) by {
        if found.None? {
          forall i | 0 <= i < |progress|
            ensures !SameLesson(progress[i], userId, lessonId)
          {
            assert progress[i] in progress;
            assert !LessonIs(userId, lessonId)(progress[i]);
          }
        }
      }
      Entry(found)
    else if userId != "" then
      var mine := Filter(progress, OfUser(userId));
      FilterMembers(progress, OfUser(userId));
      FilterCount(progress, OfUser(userId));
      Entries(mine, |mine|)
    else
      Entries(progress, |progress|)
  }

  const MissingFields := "Missing required fields: userId, lessonId"

  /** The list after the timestamp of entry k is refreshed. */
  function Touched(progress: seq<Progress>, k: nat, now: string): seq<Progress>
    requires k < |progress|
  {
    progress[k := progress[k].(completedAt := now)]
  }

  /** POST: marks the lesson completed for the user. An existing entry only gets a new
      `completedAt` (200); otherwise a new completed entry is appended (201). */
  method Post(progress: seq<Progress>, userId: string, lessonId: string, stamp: nat, now: string)
    returns (reply: Reply<Progress>, written: seq<Progress>)
    ensures userId == "" || lessonId == "" ==> reply == Err(400, MissingFields) && written == progress
    ensures userId != "" && lessonId != "" && HasEntry(progress, userId, lessonId) ==>
              var k := FindIndex(progress, LessonIs(userId, lessonId));
              0 <= k && SameLesson(progress[k], userId, lessonId) &&
              (forall i :: 0 <= i < k ==> !SameLesson(progress[i], userId, lessonId)) &&
              written == Touched(progress, k, now) && reply == Ok(200, written[k])
    ensures userId != "" && lessonId != "" && !HasEntry(progress, userId, lessonId) ==>
              reply == Ok(201, Progress("up" + NatToString(stamp), userId, lessonId, None, "completed",
                                        false, now)) &&
              written == progress + [reply.data]
    ensures userId != "" && lessonId != "" ==> HasEntry(written, userId, lessonId)
    ensures HasEntry(progress, userId, lessonId) ==> |written| == |progress|
    ensures OnePerLesson(progress) ==> OnePerLesson(written)
  {
    if userId == "" || lessonId == "" {
      return Err(400, MissingFields), progress;
    }
    var existingIndex := FindIndex(progress, LessonIs(userId, lessonId));
    if existingIndex != -1 {
      assert SameLesson(progress[existingIndex], userId, lessonId) by {
        assert LessonIs(userId, lessonId)(progress[existingIndex]);
      }
      forall i | 0 <= i < existingIndex
        ensures !SameLesson(progress[i], userId, lessonId)
      {
        assert !LessonIs(userId, lessonId)(progress[i]);
      }
      written := Touched(progress, existingIndex, now);
      TouchKeepsOnePerLesson(progress, existingIndex, now);
      assert SameLesson(written[existingIndex], userId, lessonId);
      return Ok(200, written[existingIndex]), written;
    }
    assert !HasEntry(progress, userId, lessonId) by {
      forall i | 0 <= i < |progress|
        ensures !SameLesson(progress[i], userId, lessonId)
      {
        assert !LessonIs(userId, lessonId)(progress[i]);
      }
    }
    var entry := Progress("up" + NatToString(stamp), userId, lessonId, None, "completed", false, now);
    reply, written := Ok(201, entry), progress + [entry];
    assert SameLesson(written[|progress|], userId, lessonId);
    AppendKeepsOnePerLesson(progress, entry);
  }

  lemma TouchKeepsOnePerLesson(progress: seq<Progress>, k: nat, now: string)
    requires k < |progress|
    ensures OnePerLesson(progress) ==> OnePerLesson(Touched(progress, k, now))
  {
    var r := Touched(progress, k, now);
    assert forall i :: 0 <= i < |r| ==> r[i].userId == progress[i].userId && r[i].lessonId == progress[i].lessonId;
  }

  lemma AppendKeepsOnePerLesson(progress: seq<Progress>, p: Progress)
    requires !HasEntry(progress, p.userId, p.lessonId)
    ensures OnePerLesson(progress) ==> OnePerLesson(progress + [p])
  {
    var all := progress + [p];
    forall i, j | 0 <= i < j < |all|
      ensures OnePerLesson(progress) ==> !SameLesson(all[j], all[i].userId, all[i].lessonId)
    {
      if j == |progress| {
        assert !SameLesson(progress[i], p.userId, p.lessonId);
      }
    }
  }

  /** The refresh changes only `completedAt` of the one entry: every other entry, the length
      and every other field stay as they were. */
  lemma TouchedChangesOnlyTimestamp(progress: seq<Progress>, k: nat, now: string)
    requires k < |progress|
    ensures |Touched(progress, k, now)| == |progress|
    ensures forall i :: 0 <= i < |progress| && i != k ==> Touched(progress, k, now)[i] == progress[i]
    ensures Touched(progress, k, now)[k].completedAt == now
    ensures Touched(progress, k, now)[k].(completedAt := progress[k].completedAt) == progress[k]
  {
  }
}
