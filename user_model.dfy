/**
 * The user collection as the server sees it: a user document and the
 * `findOne` / `findById` queries over the collection, held in natural
 * (insertion) order.
 */
module UserModel {
  import opened Common

  /** A stored user; `password` holds whatever the model stores for it. */
  datatype User = User(
    id: Id,
    email: string,
    username: string,
    password: string,
    profileImage: string,
    createdAt: Timestamp)

  /** A user document fetched with `.select("-password")`. */
  datatype Profile = Profile(
    id: Id,
    email: string,
    username: string,
    profileImage: string,
    createdAt: Timestamp)

  function WithoutPassword(u: User): Profile
  {
    Profile(u.id, u.email, u.username, u.profileImage, u.createdAt)
  }

  /** The filter of a query: `{_id: id}`, `{email: e}` or `{username: n}`. */
  datatype Query = ById(id: Id) | ByEmail(email: string) | ByUsername(username: string)

  predicate Matches(u: User, q: Query)
  {
    match q
    case ById(id) => u.id == id
    case ByEmail(e) => u.email == e
    case ByUsername(n) => u.username == n
  }

  /** `findOne(q)`: the first user in natural order that matches `q`, if any. */
  function FindOne(users: seq<User>, q: Query): (r: Option<User>)
    ensures r.None? <==> forall i :: 0 <= i < |users| ==> !Matches(users[i], q)
    ensures r.Some? ==> Matches(r.value, q)
    ensures r.Some? ==> exists i :: 0 <= i < |users| && users[i] == r.value &&
                                    (forall j :: 0 <= j < i ==> !Matches(users[j], q))
  {
    if users == [] then None
    else if Matches(users[0], q) then Some(users[0])
    else
      FindOne(users[1..], q)
  }

  /** When at most one user matches, `findOne` returns exactly that one. */
  lemma FindOneUnique(users: seq<User>, q: Query, i: nat)
    requires i < |users| && Matches(users[i], q)
    requires forall j :: 0 <= j < |users| && Matches(users[j], q) ==> j == i
    ensures FindOne(users, q) == Some(users[i])
  {
  }

  /** A query over a collection with one more document at the end. */
  lemma FindOneAppend(users: seq<User>, u: User, q: Query)
    ensures FindOne(users + [u], q) ==
      if FindOne(users, q).Some? then FindOne(users, q)
      else if Matches(u, q) then Some(u) else None
  {
    if users != [] {
      assert (users + [u])[1..] == users[1..] + [u];
      FindOneAppend(users[1..], u, q);
    }
  }

  /** The invariant of the collection: ids are positions, usernames and emails are unique. */
  ghost predicate WellFormed(users: seq<User>)
  {
    (forall i :: 0 <= i < |users| ==> users[i].id == i) &&
    (forall i, j :: 0 <= i < j < |users| ==> users[i].username != users[j].username) &&
    (forall i, j :: 0 <= i < j < |users| ==> users[i].email != users[j].email)
  }
}
