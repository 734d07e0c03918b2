/** /api/bookmarks (app/api/bookmarks/route.ts): a user's bookmarked books, kept in
    user_bookmarks.json as a list in which each (userId, bookId) pair should occur once.
    The handlers receive the loaded list and return the reply and the list they write back. */
module Bookmarks {
  import opened Common
  import opened Records

  predicate SamePair(b: Bookmark, userId: string, bookId: string)
  {
    b.userId == userId && b.bookId == bookId
  }

  /** The search callback `b => b.userId === userId && b.bookId === bookId`. */
  function PairIs(userId: string, bookId: string): Bookmark -> bool
  {
    (b: Bookmark) => SamePair(b, userId, bookId)
  }

  function OfUser(userId: string): Bookmark -> bool
  {
    (b: Bookmark) => b.userId == userId
  }

  predicate HasPair(bookmarks: seq<Bookmark>, userId: string, bookId: string)
  {
    exists i :: 0 <= i < |bookmarks| && SamePair(bookmarks[i], userId, bookId)
  }

  /** No (userId, bookId) pair is bookmarked twice. */
  predicate UniquePairs(bookmarks: seq<Bookmark>)
  {
    forall i, j :: 0 <= i < j < |bookmarks| ==>
      !SamePair(bookmarks[j], bookmarks[i].userId, bookmarks[i].bookId)
  }

  /** GET: with a userId, that user's bookmarks in stored order; without one, all of them. */
  function Get(bookmarks: seq<Bookmark>, userId: string): (r: seq<Bookmark>)
    ensures userId == "" ==> r == bookmarks
    ensures userId != "" ==> r == Filter(bookmarks, OfUser(userId))
    ensures userId != "" ==> forall b :: b in r <==> b in bookmarks && b.userId == userId
    ensures userId != "" ==>
              forall b :: multiset(r)[b] == if b.userId == userId then multiset(bookmarks)[b] else 0
  {
    if userId == "" then bookmarks
    else
      FilterMembers(bookmarks, OfUser(userId));
      FilterCount(bookmarks, OfUser(userId));
      Filter(bookmarks, OfUser(userId))
  }

  const MissingFields := "Missing required fields (userId, bookId)"
  const AlreadyBookmarked := "Already bookmarked"
  const MissingParameters := "Missing required parameters (userId, bookId)"
  const NotFound := "Bookmark not found"
  const Removed := "Bookmark removed"

  /** POST: adds the pair unless a field is missing or the pair is already there; a duplicate
      is refused with 400, the status of a bad request. `stamp` is `Date.now()` and `now` the
      ISO time of the request. */
  method Post(bookmarks: seq<Bookmark>, userId: string, bookId: string, stamp: nat, now: string)
    returns (reply: Reply<Bookmark>, written: seq<Bookmark>)
    ensures userId == "" || bookId == "" ==> reply == Err(400, MissingFields) && written == bookmarks
    ensures userId != "" && bookId != "" && HasPair(bookmarks, userId, bookId) ==>
              reply == Err(400, AlreadyBookmarked) && written == bookmarks
    ensures userId != "" && bookId != "" && !HasPair(bookmarks, userId, bookId) ==>
              reply == Ok(200, Bookmark("ub" + NatToString(stamp), userId, bookId, now)) &&
              written == bookmarks + [reply.data]
    ensures UniquePairs(bookmarks) ==> UniquePairs(written)
  {
    if userId == "" || bookId == "" {
      return Err(400, MissingFields), bookmarks;
    }
    var existing := Find(bookmarks, PairIs(userId, bookId));
    if existing.Some? {
      return Err(400, AlreadyBookmarked), bookmarks;
    }
    assert !HasPair(bookmarks, userId, bookId) by {
      forall i | 0 <= i < |bookmarks|
        ensures !SamePair(bookmarks[i], userId, bookId)
      {
        assert bookmarks[i] in bookmarks;
        assert !PairIs(userId, bookId)(bookmarks[i]);
      }
    }
    var newBookmark := Bookmark("ub" + NatToString(stamp), userId, bookId, now);
    reply, written := Ok(200, newBookmark), bookmarks + [newBookmark];
    AppendKeepsUnique(bookmarks, newBookmark);
  }

  lemma AppendKeepsUnique(bookmarks: seq<Bookmark>, b: Bookmark)
    requires !HasPair(bookmarks, b.userId, b.bookId)
    ensures UniquePairs(bookmarks) ==> UniquePairs(bookmarks + [b])
  {
    var all := bookmarks + [b];
    forall i, j | 0 <= i < j < |all|
      ensures UniquePairs(bookmarks) ==> !SamePair(all[j], all[i].userId, all[i].bookId)
    {
      if j == |bookmarks| {
        assert !SamePair(bookmarks[i], b.userId, b.bookId);
      }
    }
  }

  /** What `splice(findIndex(...), 1)` leaves: the list without its first entry for the pair. */
  function WithoutFirst(bookmarks: seq<Bookmark>, userId: string, bookId: string): seq<Bookmark>
  {
    var k := FindIndex(bookmarks, PairIs(userId, bookId));
    if k < 0 then bookmarks else bookmarks[..k] + bookmarks[k + 1..]
  }

  /** DELETE: removes the first entry for the pair, or answers 404 when there is none. */
  method Delete(bookmarks: seq<Bookmark>, userId: string, bookId: string)
    returns (reply: Reply<string>, written: seq<Bookmark>)
    ensures userId == "" || bookId == "" ==> reply == Err(400, MissingParameters) && written == bookmarks
    ensures userId != "" && bookId != "" && !HasPair(bookmarks, userId, bookId) ==>
              reply == Err(404, NotFound) && written == bookmarks
    ensures userId != "" && bookId != "" && HasPair(bookmarks, userId, bookId) ==>
              reply == Ok(200, Removed) && written == WithoutFirst(bookmarks, userId, bookId)
    ensures UniquePairs(bookmarks) ==> UniquePairs(written)
    ensures userId != "" && bookId != "" && UniquePairs(bookmarks) ==> !HasPair(written, userId, bookId)
  {
    if userId == "" || bookId == "" {
      return Err(400, MissingParameters), bookmarks;
    }
    var index := FindIndex(bookmarks, PairIs(userId, bookId));
    if index == -1 {
      assert !HasPair(bookmarks, userId, bookId) by {
        forall i | 0 <= i < |bookmarks|
          ensures !SamePair(bookmarks[i], userId, bookId)
        {
          assert !PairIs(userId, bookId)(bookmarks[i]);
        }
      }
      return Err(404, NotFound), bookmarks;
    }
    assert PairIs(userId, bookId)(bookmarks[index]);
    reply, written := Ok(200, Removed), bookmarks[..index] + bookmarks[index + 1..];
    if UniquePairs(bookmarks) {
      DeleteKeepsUnique(bookmarks, userId, bookId);
    }
  }

  /** The removal takes out exactly the first entry for the pair: one entry fewer, every other
      entry kept in its order. */
  lemma WithoutFirstRemovesFirstMatch(bookmarks: seq<Bookmark>, userId: string, bookId: string)
    requires HasPair(bookmarks, userId, bookId)
    ensures exists k :: 0 <= k < |bookmarks| && SamePair(bookmarks[k], userId, bookId) &&
                        (forall i :: 0 <= i < k ==> !SamePair(bookmarks[i], userId, bookId)) &&
                        WithoutFirst(bookmarks, userId, bookId) == bookmarks[..k] + bookmarks[k + 1..]
    ensures |WithoutFirst(bookmarks, userId, bookId)| == |bookmarks| - 1
  {
    var i :| 0 <= i < |bookmarks| && SamePair(bookmarks[i], userId, bookId);
    assert PairIs(userId, bookId)(bookmarks[i]);
    var k := FindIndex(bookmarks, PairIs(userId, bookId));
    assert k >= 0;
    assert SamePair(bookmarks[k], userId, bookId) by {
      assert PairIs(userId, bookId)(bookmarks[k]);
    }
    forall j | 0 <= j < k
      ensures !SamePair(bookmarks[j], userId, bookId)
    {
      assert !PairIs(userId, bookId)(bookmarks[j]);
    }
  }

  /** Removing an entry keeps the pairs unique, and afterwards the pair is gone. */
  lemma DeleteKeepsUnique(bookmarks: seq<Bookmark>, userId: string, bookId: string)
    requires UniquePairs(bookmarks)
    ensures UniquePairs(WithoutFirst(bookmarks, userId, bookId))
    ensures !HasPair(WithoutFirst(bookmarks, userId, bookId), userId, bookId)
  {
    if HasPair(bookmarks, userId, bookId) {
      WithoutFirstRemovesFirstMatch(bookmarks, userId, bookId);
      var k :| 0 <= k < |bookmarks| && SamePair(bookmarks[k], userId, bookId) &&
               WithoutFirst(bookmarks, userId, bookId) == bookmarks[..k] + bookmarks[k + 1..];
      SpliceKeepsUnique(bookmarks, k);
      SpliceDropsPair(bookmarks, k);
    }
  }

  lemma SpliceKeepsUnique(bookmarks: seq<Bookmark>, k: nat)
    requires UniquePairs(bookmarks) && k < |bookmarks|
    ensures UniquePairs(bookmarks[..k] + bookmarks[k + 1..])
  {
    var r := bookmarks[..k] + bookmarks[k + 1..];
    forall i, j | 0 <= i < j < |r|
      ensures !SamePair(r[j], r[i].userId, r[i].bookId)
    {
      var i' := if i < k then i else i + 1;
      var j' := if j < k then j else j + 1;
      assert r[i] == bookmarks[i'] && r[j] == bookmarks[j'];
    }
  }

  lemma SpliceDropsPair(bookmarks: seq<Bookmark>, k: nat)
    requires UniquePairs(bookmarks) && k < |bookmarks|
    ensures !HasPair(bookmarks[..k] + bookmarks[k + 1..], bookmarks[k].userId, bookmarks[k].bookId)
  {
    var r := bookmarks[..k] + bookmarks[k + 1..];
    forall i | 0 <= i < |r|
      ensures !SamePair(r[i], bookmarks[k].userId, bookmarks[k].bookId)
    {
      var i' := if i < k then i else i + 1;
      assert r[i] == bookmarks[i'];
    }
  }

  /** A successful POST followed by a DELETE of the same pair restores the list. */
  lemma DeleteUndoesPost(bookmarks: seq<Bookmark>, b: Bookmark)
    requires !HasPair(bookmarks, b.userId, b.bookId)
    ensures WithoutFirst(bookmarks + [b], b.userId, b.bookId) == bookmarks
  {
    var all := bookmarks + [b];
    var p := PairIs(b.userId, b.bookId);
    assert p(all[|bookmarks|]);
    forall i | 0 <= i < |bookmarks|
      ensures !p(all[i])
    {
      assert !SamePair(bookmarks[i], b.userId, b.bookId);
    }
    var k := FindIndex(all, p);
    assert k == |bookmarks|;
    assert all[..k] == bookmarks;
  }
}
