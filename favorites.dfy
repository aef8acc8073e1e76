/**
 * The favorites collection of the document store (mongodb_utils.py:30-48): one document per
 * saved (user, faculty id) pair, with the time it was saved. The collection is a sequence in
 * the store's natural order; `find_one` and `delete_one` act on the first matching document.
 */
module Favorites {
  import opened Wrappers
  import opened Seqs

  /** A favorites document: `user` is the user's email, `timestamp` the save time. */
  datatype Favorite = Favorite(user: string, facultyId: int, timestamp: int)

  /** The filter `{"user": user, "faculty_id": facultyId}`. */
  predicate Matches(f: Favorite, user: string, facultyId: int)
  {
    f.user == user && f.facultyId == facultyId
  }

  predicate HasMatch(c: seq<Favorite>, user: string, facultyId: int)
  {
    exists i :: 0 <= i < |c| && Matches(c[i], user, facultyId)
  }

  /** Number of documents matching the filter. */
  function KeyCount(c: seq<Favorite>, user: string, facultyId: int): nat
  {
    if c == [] then 0
    else (if Matches(c[0], user, facultyId) then 1 else 0) + KeyCount(c[1..], user, facultyId)
  }

  /** The invariant the check-then-insert is meant to keep: at most one document per pair. */
  predicate Unique(c: seq<Favorite>)
  {
    forall i, j :: 0 <= i < j < |c| ==> !Matches(c[j], c[i].user, c[i].facultyId)
  }

  /** `find_one` with the pair filter: the position of the first matching document, if any. */
  function FindOne(c: seq<Favorite>, user: string, facultyId: int): (r: Option<nat>)
    ensures r.Some? ==> r.value < |c| && Matches(c[r.value], user, facultyId)
    ensures r.Some? ==> forall j :: 0 <= j < r.value ==> !Matches(c[j], user, facultyId)
    ensures r.None? <==> !HasMatch(c, user, facultyId)
  {
    if c == [] then None
    else if Matches(c[0], user, facultyId) then Some(0)
    else
      match FindOne(c[1..], user, facultyId)
      case None =>
        assert forall j :: 1 <= j < |c| ==> c[j] == c[1..][j - 1];
        None
      case Some(i) => Some(i + 1)
  }

  lemma {:induction false} KeyCountZero(c: seq<Favorite>, user: string, facultyId: int)
    ensures KeyCount(c, user, facultyId) == 0 <==> !HasMatch(c, user, facultyId)
  {
    if c != [] {
      KeyCountZero(c[1..], user, facultyId);
      if HasMatch(c[1..], user, facultyId) {
        var i :| 0 <= i < |c[1..]| && Matches(c[1..][i], user, facultyId);
        assert c[i + 1] == c[1..][i];
      }
      if HasMatch(c, user, facultyId) && !Matches(c[0], user, facultyId) {
        var i :| 0 <= i < |c| && Matches(c[i], user, facultyId);
        assert c[1..][i - 1] == c[i];
      }
    }
  }

  lemma {:induction false} KeyCountAppend(c: seq<Favorite>, x: Favorite, user: string, facultyId: int)
    ensures KeyCount(c + [x], user, facultyId) ==
      KeyCount(c, user, facultyId) + if Matches(x, user, facultyId) then 1 else 0
  {
    if c == [] {
      assert [x][1..] == [];
    } else {
      assert (c + [x])[1..] == c[1..] + [x];
      KeyCountAppend(c[1..], x, user, facultyId);
    }
  }

  // ---------------------------------------------------------------------------------------
  // save_to_favorites (mongodb_utils.py:30-36)

  /** The collection after `save_to_favorites(user, facultyId)` at time `now`. */
  function Saved(c: seq<Favorite>, user: string, facultyId: int, now: int): (r: seq<Favorite>)
    ensures r == c || r == c + [Favorite(user, facultyId, now)]
    ensures r == c <==> HasMatch(c, user, facultyId)
    ensures HasMatch(r, user, facultyId)
  {
    if FindOne(c, user, facultyId).Some? then c
    else
      var r := c + [Favorite(user, facultyId, now)];
      assert Matches(r[|c|], user, facultyId);
      r
  }

  /** Saving leaves exactly one document for the pair when there was at most one before. */
  lemma SaveExactlyOne(c: seq<Favorite>, user: string, facultyId: int, now: int)
    requires KeyCount(c, user, facultyId) <= 1
    ensures KeyCount(Saved(c, user, facultyId, now), user, facultyId) == 1
  {
    KeyCountZero(c, user, facultyId);
    if !HasMatch(c, user, facultyId) {
      KeyCountAppend(c, Favorite(user, facultyId, now), user, facultyId);
    }
  }

  /** A repeated save changes nothing, whatever its time. */
  lemma SaveIdempotent(c: seq<Favorite>, user: string, facultyId: int, t1: int, t2: int)
    ensures Saved(Saved(c, user, facultyId, t1), user, facultyId, t2) == Saved(c, user, facultyId, t1)
  {
  }

  lemma SavePreservesUnique(c: seq<Favorite>, user: string, facultyId: int, now: int)
    requires Unique(c)
    ensures Unique(Saved(c, user, facultyId, now))
  {
    var r := Saved(c, user, facultyId, now);
    if r != c {
      forall i, j | 0 <= i < j < |r| ensures !Matches(r[j], r[i].user, r[i].facultyId) {
        if j == |c| && Matches(r[j], r[i].user, r[i].facultyId) {
          assert Matches(c[i], user, facultyId);
        }
      }
    }
  }

  // ---------------------------------------------------------------------------------------
  // get_favorites (mongodb_utils.py:38-39)

  /** `find({"user": user})`: the user's documents, in collection order. */
  function UserFavorites(c: seq<Favorite>, user: string): (r: seq<Favorite>)
    ensures forall x :: x in r <==> x in c && x.user == user
    ensures forall x: Favorite :: multiset(r)[x] == if x.user == user then multiset(c)[x] else 0
    ensures IsSubsequence(r, c)
  {
    if c == [] then []
    else
      assert c == [c[0]] + c[1..];
      if c[0].user == user then [c[0]] + UserFavorites(c[1..], user)
      else UserFavorites(c[1..], user)
  }

  // ---------------------------------------------------------------------------------------
  // clear_favorites (mongodb_utils.py:44-45)

  /** `delete_many({"user": user})`: every other document, in collection order. */
  function Cleared(c: seq<Favorite>, user: string): (r: seq<Favorite>)
    ensures forall x :: x in r <==> x in c && x.user != user
    ensures forall x: Favorite :: multiset(r)[x] == if x.user != user then multiset(c)[x] else 0
    ensures IsSubsequence(r, c)
  {
    if c == [] then []
    else
      assert c == [c[0]] + c[1..];
      if c[0].user != user then [c[0]] + Cleared(c[1..], user)
      else Cleared(c[1..], user)
  }

  /** After clearing, the user has no favorites and every other user has exactly the same ones. */
  lemma {:induction false} ClearedFavorites(c: seq<Favorite>, user: string, other: string)
    ensures UserFavorites(Cleared(c, user), user) == []
    ensures other != user ==> UserFavorites(Cleared(c, user), other) == UserFavorites(c, other)
  {
    if c != [] {
      ClearedFavorites(c[1..], user, other);
      if c[0].user != user {
        assert Cleared(c, user)[1..] == Cleared(c[1..], user);
      }
    }
  }

  lemma {:induction false} ClearPreservesUnique(c: seq<Favorite>, user: string)
    requires Unique(c)
    ensures Unique(Cleared(c, user))
  {
    if c != [] {
      UniqueSplit(c);
      ClearPreservesUnique(c[1..], user);
      if c[0].user != user {
        var rest := Cleared(c[1..], user);
        assert Cleared(c, user) == [c[0]] + rest;
        UniqueCons(c[0], rest);
      }
    }
  }

  /** A unique collection has a unique tail whose documents all differ from the head's pair. */
  lemma UniqueSplit(c: seq<Favorite>)
    requires c != [] && Unique(c)
    ensures Unique(c[1..])
    ensures forall x :: x in c[1..] ==> !Matches(x, c[0].user, c[0].facultyId)
  {
    forall i, j | 0 <= i < j < |c[1..]| ensures !Matches(c[1..][j], c[1..][i].user, c[1..][i].facultyId) {
      assert c[1..][j] == c[j + 1] && c[1..][i] == c[i + 1];
    }
    forall x | x in c[1..] ensures !Matches(x, c[0].user, c[0].facultyId) {
      var k :| 0 <= k < |c[1..]| && c[1..][k] == x;
      assert c[k + 1] == x;
    }
  }

  /** A head whose pair no document of a unique `rest` shares keeps the collection unique. */
  lemma UniqueCons(h: Favorite, rest: seq<Favorite>)
    requires Unique(rest) && forall x :: x in rest ==> !Matches(x, h.user, h.facultyId)
    ensures Unique([h] + rest)
  {
    var r := [h] + rest;
    forall i, j | 0 <= i < j < |r| ensures !Matches(r[j], r[i].user, r[i].facultyId) {
      assert r[j] == rest[j - 1];
      if i > 0 {
        assert r[i] == rest[i - 1];
      }
    }
  }

  // ---------------------------------------------------------------------------------------
  // remove_from_favorites (mongodb_utils.py:47-48)

  /** `delete_one` with the pair filter: drops the first matching document, if any. */
  function RemovedOne(c: seq<Favorite>, user: string, facultyId: int): (r: seq<Favorite>)
    ensures !HasMatch(c, user, facultyId) ==> r == c
    ensures HasMatch(c, user, facultyId) ==> |r| == |c| - 1
    ensures IsSubsequence(r, c)
    ensures forall x :: !Matches(x, user, facultyId) ==> multiset(r)[x] == multiset(c)[x]
  {
    match FindOne(c, user, facultyId)
    case None =>
      SubsequenceRefl(c);
      c
    case Some(i) =>
      DeleteAtSubsequence(c, i);
      assert c == c[..i] + [c[i]] + c[i + 1..];
      c[..i] + c[i + 1..]
  }

  /** Removing deletes one matching document when there is one, and none otherwise. */
  lemma RemoveCount(c: seq<Favorite>, user: string, facultyId: int)
    ensures KeyCount(RemovedOne(c, user, facultyId), user, facultyId) ==
      if KeyCount(c, user, facultyId) == 0 then 0 else KeyCount(c, user, facultyId) - 1
  {
    KeyCountZero(c, user, facultyId);
    match FindOne(c, user, facultyId)
    case None =>
    case Some(i) =>
      assert c == c[..i] + [c[i]] + c[i + 1..];
      KeyCountConcat(c[..i] + [c[i]], c[i + 1..], user, facultyId);
      KeyCountConcat(c[..i], [c[i]], user, facultyId);
      KeyCountConcat(c[..i], c[i + 1..], user, facultyId);
  }

  lemma {:induction false} KeyCountConcat(a: seq<Favorite>, b: seq<Favorite>, user: string, facultyId: int)
    ensures KeyCount(a + b, user, facultyId) == KeyCount(a, user, facultyId) + KeyCount(b, user, facultyId)
  {
    if a == [] {
      assert a + b == b;
    } else {
      assert (a + b)[1..] == a[1..] + b;
      KeyCountConcat(a[1..], b, user, facultyId);
    }
  }

  lemma RemovePreservesUnique(c: seq<Favorite>, user: string, facultyId: int)
    requires Unique(c)
    ensures Unique(RemovedOne(c, user, facultyId))
    ensures !HasMatch(RemovedOne(c, user, facultyId), user, facultyId)
  {
    match FindOne(c, user, facultyId)
    case None =>
    case Some(i) =>
      var r := c[..i] + c[i + 1..];
      forall j | 0 <= j < |r| ensures r[j] == c[if j < i then j else j + 1] {
      }
      forall j | 0 <= j < |r| ensures !Matches(r[j], user, facultyId) {
        if j >= i {
          assert r[j] == c[j + 1];
        }
      }
  }

  // ---------------------------------------------------------------------------------------
  // The collection itself, changed in place by the three mutators.

  class FavoritesStore {
    var records: seq<Favorite>

    constructor ()
      ensures records == []
    {
      records := [];
    }

    /** Check-then-insert: a document for the pair is added only when none exists. */
    method SaveToFavorites(user: string, facultyId: int, now: int)
      modifies this
      ensures records == Saved(old(records), user, facultyId, now)
      ensures Unique(old(records)) ==> Unique(records)
    {
      var existing := FindOne(records, user, facultyId);
      if existing.None? {
        records := records + [Favorite(user, facultyId, now)];
      }
      if Unique(old(records)) {
        SavePreservesUnique(old(records), user, facultyId, now);
      }
    }

    method GetFavorites(user: string) returns (r: seq<Favorite>)
      ensures r == UserFavorites(records, user)
      ensures forall x :: x in r <==> x in records && x.user == user
      ensures forall x: Favorite :: multiset(r)[x] == if x.user == user then multiset(records)[x] else 0
    {
      r := UserFavorites(records, user);
    }

    method ClearFavorites(user: string)
      modifies this
      ensures records == Cleared(old(records), user)
      ensures UserFavorites(records, user) == []
      ensures Unique(old(records)) ==> Unique(records)
    {
      records := Cleared(records, user);
      ClearedFavorites(old(records), user, user);
      if Unique(old(records)) {
        ClearPreservesUnique(old(records), user);
      }
    }

    method RemoveFromFavorites(user: string, facultyId: int)
      modifies this
      ensures records == RemovedOne(old(records), user, facultyId)
      ensures Unique(old(records)) ==> Unique(records) && !HasMatch(records, user, facultyId)
    {
      records := RemovedOne(records, user, facultyId);
      if Unique(old(records)) {
        RemovePreservesUnique(old(records), user, facultyId);
      }
    }
  }
}
