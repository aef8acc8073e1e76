/**
 * The dashboard's per-session logic (app.py:40-45, 66): the login form that creates the
 * session user and wipes that user's favorites, and the removal of one research interest.
 */
module Session {
  import opened Wrappers
  import opened Seqs
  import Favorites

  /** The session user: the display name and the email that keys every store lookup. */
  datatype User = User(name: string, email: string)

  /**
   * The login form. A user is created only when the form was submitted and all three fields
   * are non-empty; the name is the first and last name joined by one space.
   */
  function Login(submitted: bool, firstName: string, lastName: string, email: string): (r: Option<User>)
    ensures r.Some? <==> submitted && firstName != [] && lastName != [] && email != []
    ensures r.Some? ==> r.value.email == email
    ensures r.Some? ==> |r.value.name| == |firstName| + 1 + |lastName|
    ensures r.Some? ==> r.value.name[..|firstName|] == firstName && r.value.name[|firstName|] == ' '
    ensures r.Some? ==> r.value.name[|firstName| + 1..] == lastName
  {
    if submitted && firstName != [] && lastName != [] && email != [] then
      Some(User(firstName + " " + lastName, email))
    else
      None
  }

  /** Position of the first space in `s`, or `|s|` when there is none. */
  function FirstSpace(s: string): (r: nat)
    ensures r <= |s|
    ensures forall i :: 0 <= i < r ==> s[i] != ' '
    ensures r < |s| ==> s[r] == ' '
  {
    if s == [] then 0
    else if s[0] == ' ' then 0
    else 1 + FirstSpace(s[1..])
  }

  /** When the first name holds no space, the display name splits back into the two fields. */
  lemma LoginNameSplits(firstName: string, lastName: string, email: string)
    requires firstName != [] && lastName != [] && email != []
    requires ' ' !in firstName
    ensures var name := Login(true, firstName, lastName, email).value.name;
      name[..FirstSpace(name)] == firstName && name[FirstSpace(name) + 1..] == lastName
  {
    var name := firstName + " " + lastName;
    assert forall i :: 0 <= i < |firstName| ==> name[i] == firstName[i];
    assert name[|firstName|] == ' ';
  }

  /**
   * Submitting the form: on a successful login the user's favorites are cleared from the store
   * (the session then starts with none); otherwise the store is left alone.
   */
  method SubmitLogin(store: Favorites.FavoritesStore, submitted: bool, firstName: string, lastName: string, email: string)
    returns (user: Option<User>)
    modifies store
    ensures user == Login(submitted, firstName, lastName, email)
    ensures user.Some? ==> store.records == Favorites.Cleared(old(store.records), email)
    ensures user.Some? ==> Favorites.UserFavorites(store.records, email) == []
    ensures user.None? ==> store.records == old(store.records)
  {
    user := Login(submitted, firstName, lastName, email);
    if user.Some? {
      store.ClearFavorites(email);
    }
  }

  /** The sidebar's remove button: every copy of `interest` goes, the rest keep their order. */
  function RemoveInterest(interests: seq<string>, interest: string): (r: seq<string>)
    ensures interest !in r
    ensures forall x :: x != interest ==> multiset(r)[x] == multiset(interests)[x]
    ensures IsSubsequence(r, interests)
  {
    if interests == [] then []
    else
      assert interests == [interests[0]] + interests[1..];
      if interests[0] == interest then RemoveInterest(interests[1..], interest)
      else [interests[0]] + RemoveInterest(interests[1..], interest)
  }

  /** Removing an interest the user does not have changes nothing. */
  lemma {:induction false} RemoveAbsentInterest(interests: seq<string>, interest: string)
    requires interest !in interests
    ensures RemoveInterest(interests, interest) == interests
  {
    if interests != [] {
      RemoveAbsentInterest(interests[1..], interest);
    }
  }

  /** Pressing the remove button twice leaves the same list as pressing it once. */
  lemma RemoveInterestIdempotent(interests: seq<string>, interest: string)
    ensures RemoveInterest(RemoveInterest(interests, interest), interest) == RemoveInterest(interests, interest)
  {
    RemoveAbsentInterest(RemoveInterest(interests, interest), interest);
  }
}
