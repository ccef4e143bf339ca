/**
 * The `users` collection as the user handlers read it: a sequence of
 * documents with their ids, in the order the store returns them, the two
 * lookups the handlers make (`doc(id)` and `where("email", "==", email)`),
 * and the projection that drops the password hash.
 */
module Users {
  import opened Wrappers
  import opened Values

  /** A stored user: the document id and its fields. */
  datatype UserEntry = UserEntry(id: string, doc: Doc)

  /** `collection("users").doc(id).get()`: the position of the document with that id. */
  function FindById(users: seq<UserEntry>, id: string): (r: Option<nat>)
    ensures r.None? <==> forall j :: 0 <= j < |users| ==> users[j].id != id
    ensures r.Some? ==> r.value < |users| && users[r.value].id == id
    ensures r.Some? ==> forall j :: 0 <= j < r.value ==> users[j].id != id
  {
    if users == [] then None
    else if users[0].id == id then Some(0)
    else
      match FindById(users[1..], id)
      case None => None
      case Some(j) => Some(j + 1)
  }

  /** The document's `email` field is exactly the string `email`. */
  predicate HasEmail(u: UserEntry, email: string) {
    "email" in u.doc && u.doc["email"] == Str(email)
  }

  /**
   * `where("email", "==", email).limit(1)`: the position of the first user
   * whose email is exactly `email`, if any.
   */
  function FirstWithEmail(users: seq<UserEntry>, email: string): (r: Option<nat>)
    ensures r.None? <==> forall j :: 0 <= j < |users| ==> !HasEmail(users[j], email)
    ensures r.Some? ==> r.value < |users| && HasEmail(users[r.value], email)
    ensures r.Some? ==> forall j :: 0 <= j < r.value ==> !HasEmail(users[j], email)
  {
    if users == [] then None
    else if HasEmail(users[0], email) then Some(0)
    else
      match FirstWithEmail(users[1..], email)
      case None => None
      case Some(j) => Some(j + 1)
  }

  /** Users stored after the first match do not change which user is found. */
  lemma FirstWithEmailPrefix(users: seq<UserEntry>, later: seq<UserEntry>, email: string)
    requires FirstWithEmail(users, email).Some?
    ensures FirstWithEmail(users + later, email) == FirstWithEmail(users, email)
  {
    var i := FirstWithEmail(users, email).value;
    assert forall j :: 0 <= j <= i ==> (users + later)[j] == users[j];
  }

  /** No two users hold the same email. */
  ghost predicate EmailsUnique(users: seq<UserEntry>) {
    forall i, j, e :: 0 <= i < j < |users| && HasEmail(users[i], e) ==> !HasEmail(users[j], e)
  }

  /**
   * `const { passwordHash, ...rest } = data`: every field but the password
   * hash, unchanged.
   */
  function Strip(doc: Doc): (r: Doc)
    ensures "passwordHash" !in r
    ensures forall k :: k != "passwordHash" ==> (k in r <==> k in doc)
    ensures forall k :: k in r ==> r[k] == doc[k]
  {
    doc - {"passwordHash"}
  }
}
