/** The User collection as the authentication layer uses it: lookups by `_id`
    and by e-mail, and the insertion performed by `user.save()`. */
module Users {
  import opened Values

  /** The `_id` of a user document, in its string form (the form it takes
      inside a token). */
  type Id = string

  /** A user document: its `_id` and the three fields of the User schema.
      `password` holds whatever the register handler stored there. */
  datatype User = User(id: Id, username: string, email: string, password: string)

  /** The collection: documents by `_id`, and the natural order in which a
      `findOne` scans them (taken to be insertion order). */
  datatype Store = Store(users: map<Id, User>, order: seq<Id>)

  /** The collection is well formed: the natural order lists every document
      exactly once, and each document is filed under its own `_id`. */
  ghost predicate Valid(s: Store) {
    && (forall id :: id in s.users <==> id in s.order)
    && (forall i, j :: 0 <= i < j < |s.order| ==> s.order[i] != s.order[j])
    && (forall id :: id in s.users ==> s.users[id].id == id)
  }

  /** The document filed under `id` has e-mail `email`. */
  predicate HasEmail(users: map<Id, User>, id: Id, email: string) {
    id in users && users[id].email == email
  }

  /** Position in `order` of the first document whose e-mail is `email`:
      the match `findOne({ email })` returns. */
  function FirstWithEmail(users: map<Id, User>, order: seq<Id>, email: string): (r: Option<nat>)
    ensures r.Some? ==> r.value < |order| && HasEmail(users, order[r.value], email)
    ensures r.Some? ==> forall j :: 0 <= j < r.value ==> !HasEmail(users, order[j], email)
    ensures r.None? ==> forall j :: 0 <= j < |order| ==> !HasEmail(users, order[j], email)
    decreases |order|
  {
    if |order| == 0 then None
    else if HasEmail(users, order[0], email) then Some(0)
    else
      match FirstWithEmail(users, order[1..], email)
      case None => None
      case Some(i) => Some(i + 1)
  }

  /** `User.findById(id)`: the document with that `_id`, if any. */
  function FindById(s: Store, id: Id): (r: Option<User>)
    ensures r.Some? <==> id in s.users
    ensures r.Some? ==> r.value == s.users[id]
    ensures Valid(s) && r.Some? ==> r.value.id == id
  {
    if id in s.users then Some(s.users[id]) else None
  }

  /** `User.findOne({ email })`: the first document in natural order whose
      e-mail is `email`. */
  function FindByEmail(s: Store, email: string): (r: Option<User>)
    ensures r.Some? ==> r.value.email == email
    ensures Valid(s) && r.Some? ==> r.value.id in s.users && s.users[r.value.id] == r.value
    ensures Valid(s) ==> (r.None? <==> forall id :: id in s.users ==> s.users[id].email != email)
  {
    match FirstWithEmail(s.users, s.order, email)
    case None => None
    case Some(i) => Some(s.users[s.order[i]])
  }

  /** `user.save()` for a newly built document: it joins the collection at
      the end of the natural order. `new User` gives every document a fresh
      `_id`, so the save never meets one already present; should the `_id`
      be taken anyway, the collection keeps the document it has. */
  function Save(s: Store, u: User): (r: Store)
    ensures Valid(s) ==> Valid(r)
    ensures u.id in r.users
    ensures u.id !in s.users ==> r.users[u.id] == u
    ensures forall id :: id in s.users ==> id in r.users && r.users[id] == s.users[id]
    ensures forall id :: id in r.users ==> id in s.users || id == u.id
  {
    if u.id in s.users then s
    else Store(s.users[u.id := u], s.order + [u.id])
  }

  /** Appending a fresh document to the scan keeps an earlier match, and
      otherwise matches the new document exactly when its e-mail fits. */
  lemma {:induction false} FirstWithEmailAppend(users: map<Id, User>, order: seq<Id>, u: User, email: string)
    requires u.id !in order
    ensures FirstWithEmail(users[u.id := u], order + [u.id], email) ==
      match FirstWithEmail(users, order, email)
      case Some(i) => Some(i)
      case None => if u.email == email then Some(|order|) else None
    decreases |order|
  {
    var users' := users[u.id := u];
    if |order| == 0 {
      assert order + [u.id] == [u.id];
    } else {
      assert (order + [u.id])[0] == order[0];
      assert (order + [u.id])[1..] == order[1..] + [u.id];
      assert HasEmail(users', order[0], email) == HasEmail(users, order[0], email);
      FirstWithEmailAppend(users, order[1..], u, email);
    }
  }

  /** After a fresh document is saved, `findOne({ email })` still answers
      the earlier match if there was one, and otherwise the new document
      exactly when its e-mail fits. */
  lemma FindByEmailAfterSave(s: Store, u: User, email: string)
    requires Valid(s)
    requires u.id !in s.users
    ensures FindByEmail(Save(s, u), email) ==
      if FindByEmail(s, email).Some? then FindByEmail(s, email)
      else if u.email == email then Some(u) else None
  {
    FirstWithEmailAppend(s.users, s.order, u, email);
  }
}
