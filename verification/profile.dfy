/**
 * The signed-in user's profile (src/routes/api/user/index.ts). GET returns
 * the stored document without its password hash. PATCH copies the allowed
 * fields of the body, each of which must be a string and is trimmed, adds
 * the update time, merges them into the stored document and returns the
 * result without its password hash. The functions here state the outcome;
 * `UserStore.PatchProfile` computes it step by step.
 */
module Profile {
  import opened Wrappers
  import opened Text
  import opened Values
  import opened Http
  import opened TokenAuth
  import opened Users

  /** The fields a PATCH may change, in the order they are checked. */
  const AllowedFields := ["displayName", "avatarUrl", "bio"]

  /** `successResponse("", { user })`. */
  datatype UserPayload = UserPayload(user: Doc)

  /**
   * GET: 401 without a user id, 404 "User not found" without a document of
   * that id, else the document minus its password hash.
   */
  function GetProfile(users: seq<UserEntry>, auth: Option<string>): (r: Response<Doc>)
    ensures !Authenticated(auth) ==> r == ErrorResponse("Unauthorized", 401)
    ensures Authenticated(auth) && FindById(users, auth.value).None? ==> r == ErrorResponse("User not found", 404)
    ensures Authenticated(auth) && FindById(users, auth.value).Some? ==>
      r == SuccessResponse("success", Some(Strip(users[FindById(users, auth.value).value].doc)))
    ensures r.Reply? && r.data.Some? ==> "passwordHash" !in r.data.value
    ensures r.Reply? && r.success ==> exists i ::
      && 0 <= i < |users| && users[i].id == auth.value
      && r.data == Some(Strip(users[i].doc))
  {
    if !Authenticated(auth) then ErrorResponse("Unauthorized", 401)
    else
      match FindById(users, auth.value)
      case None => ErrorResponse("User not found", 404)
      case Some(i) => SuccessResponse("success", Some(Strip(users[i].doc)))
  }

  // ---------------------------------------------------------------------
  // The whitelist loop

  /** Where the loop over the allowed fields stands: fields collected so far, an error answer, or a thrown TypeError. */
  datatype Collection = Collected(fields: Doc) | Rejected(message: string) | Thrown

  /**
   * One turn of the loop for `key`: `key in updates` throws on a body that
   * is not an object; a present value that is not a string stops the loop
   * with "<key> must be a string"; a string is copied trimmed.
   */
  function CollectStep(acc: Collection, v: Value, key: string): Collection {
    match acc
    case Collected(m) =>
      (match In(key, v)
       case None => Thrown
       case Some(false) => acc
       case Some(true) =>
         var val := v.fields[key];
         if val.Str? then Collected(m[key := Str(Trim(val.s))]) else Rejected(key + " must be a string"))
    case _ => acc
  }

  /** The loop run over `keys`, as a fold from the left. */
  function Collect(v: Value, keys: seq<string>): Collection {
    if keys == [] then Collected(map[])
    else CollectStep(Collect(v, keys[..|keys| - 1]), v, keys[|keys| - 1])
  }

  /** A present value that is not a string. */
  predicate BadField(v: Value, key: string) {
    v.Obj? && key in v.fields && !v.fields[key].Str?
  }

  /** Key `i` is the first of `keys` whose value is present but not a string. */
  predicate FirstBadField(v: Value, keys: seq<string>, i: int) {
    0 <= i < |keys| && BadField(v, keys[i]) && forall j :: 0 <= j < i ==> !BadField(v, keys[j])
  }

  /** The loop throws exactly on a body that is neither an object nor an array. */
  lemma {:induction false} CollectThrown(v: Value, keys: seq<string>)
    ensures Collect(v, keys) == Thrown <==> keys != [] && !v.Obj? && !v.Arr?
  {
    if keys != [] {
      CollectThrown(v, keys[..|keys| - 1]);
    }
  }

  /**
   * The loop fails exactly when some key holds a value that is not a
   * string, and then names the first such key.
   */
  lemma {:induction false} CollectRejected(v: Value, keys: seq<string>)
    ensures Collect(v, keys).Rejected? <==> exists i :: 0 <= i < |keys| && BadField(v, keys[i])
    ensures Collect(v, keys).Rejected? ==> exists i :: FirstBadField(v, keys, i) && Collect(v, keys).message == keys[i] + " must be a string"
  {
    if keys != [] {
      var init, key := keys[..|keys| - 1], keys[|keys| - 1];
      CollectRejected(v, init);
      CollectThrown(v, init);
      assert forall j :: 0 <= j < |init| ==> init[j] == keys[j];
      var acc := Collect(v, init);
      if acc.Rejected? {
        var i :| FirstBadField(v, init, i) && acc.message == init[i] + " must be a string";
        assert FirstBadField(v, keys, i);
      } else {
        assert forall j :: 0 <= j < |init| ==> !BadField(v, keys[j]);
        assert FirstBadField(v, keys, |keys| - 1) <==> BadField(v, key);
      }
    }
  }

  /**
   * When the loop runs through, it has collected exactly the keys the body
   * holds, each with its value trimmed.
   */
  lemma {:induction false} CollectFields(v: Value, keys: seq<string>)
    requires Collect(v, keys).Collected?
    ensures forall k :: k in Collect(v, keys).fields <==> k in keys && v.Obj? && k in v.fields
    ensures forall k :: k in Collect(v, keys).fields ==>
      v.Obj? && k in v.fields && v.fields[k].Str? && Collect(v, keys).fields[k] == Str(Trim(v.fields[k].s))
  {
    if keys != [] {
      var init, key := keys[..|keys| - 1], keys[|keys| - 1];
      assert Collect(v, init).Collected?;
      CollectFields(v, init);
      assert keys == init + [key];
    }
  }

  /** Once the loop has returned, later keys change nothing. */
  lemma {:induction false} CollectSticky(v: Value, keys: seq<string>, n: nat)
    requires n <= |keys| && !Collect(v, keys[..n]).Collected?
    ensures Collect(v, keys) == Collect(v, keys[..n])
    decreases |keys| - n
  {
    if n == |keys| {
      assert keys[..n] == keys;
    } else {
      assert keys[..n + 1][..n] == keys[..n];
      CollectSticky(v, keys, n + 1);
    }
  }

  // ---------------------------------------------------------------------
  // PATCH

  /**
   * The merged document `update` writes: the stored fields, overridden by
   * the collected ones, and the new `updatedAt`.
   */
  function Updated(doc: Doc, fields: Doc, now: int): (r: Doc)
    ensures r.Keys == doc.Keys + fields.Keys + {"updatedAt"}
    ensures r["updatedAt"] == Time(now)
    ensures forall k :: k in fields && k != "updatedAt" ==> r[k] == fields[k]
    ensures forall k :: k in doc && k !in fields && k != "updatedAt" ==> r[k] == doc[k]
  {
    doc + fields["updatedAt" := Time(now)]
  }

  /** What a PATCH answers, and the users collection after it. */
  datatype Patch = Patch(response: Response<UserPayload>, users: seq<UserEntry>)

  /**
   * PATCH, in the handler's order: 401 without a user id; 400 "Invalid JSON
   * payload" when the body cannot be read; the loop's TypeError or error
   * answer; 400 "No valid fields to update"; 404 "User not found"; else the
   * stored document merged with the collected fields and `updatedAt` (the
   * store's timestamp at `now`), answered without its password hash. Only a
   * success changes the collection.
   */
  function PatchOutcome(users: seq<UserEntry>, auth: Option<string>, body: Body, now: int): (p: Patch)
    ensures !Authenticated(auth) ==> p == Patch(ErrorResponse("Unauthorized", 401), users)
    ensures Authenticated(auth) && !body.Parsed? ==> p == Patch(ErrorResponse("Invalid JSON payload"), users)
    ensures p.response == Uncaught <==> Authenticated(auth) && body.Parsed? && !body.value.Obj? && !body.value.Arr?
    ensures (Authenticated(auth) && body.Parsed? && Collect(body.value, AllowedFields).Rejected?) ==>
      p == Patch(ErrorResponse(Collect(body.value, AllowedFields).message, 400), users)
    ensures (Authenticated(auth) && body.Parsed? && Collect(body.value, AllowedFields) == Collected(map[])) ==>
      p == Patch(ErrorResponse("No valid fields to update", 400), users)
    ensures (Authenticated(auth) && body.Parsed? && Collect(body.value, AllowedFields).Collected?
      && Collect(body.value, AllowedFields) != Collected(map[]) && FindById(users, auth.value).None?) ==>
      p == Patch(ErrorResponse("User not found", 404), users)
    ensures (Authenticated(auth) && body.Parsed? && Collect(body.value, AllowedFields).Collected?
      && Collect(body.value, AllowedFields) != Collected(map[]) && FindById(users, auth.value).Some?) ==>
      var i := FindById(users, auth.value).value;
      var doc := Updated(users[i].doc, Collect(body.value, AllowedFields).fields, now);
      p == Patch(SuccessResponse("", Some(UserPayload(Strip(doc)))), users[i := UserEntry(users[i].id, doc)])
    ensures !(p.response.Reply? && p.response.success) ==> p.users == users
    ensures p.response.Reply? && p.response.data.Some? ==> "passwordHash" !in p.response.data.value.user
  {
    if !Authenticated(auth) then Patch(ErrorResponse("Unauthorized", 401), users)
    else if !body.Parsed? then Patch(ErrorResponse("Invalid JSON payload"), users)
    else
      CollectThrown(body.value, AllowedFields);
      match Collect(body.value, AllowedFields)
      case Thrown => Patch(Uncaught, users)
      case Rejected(message) => Patch(ErrorResponse(message, 400), users)
      case Collected(fields) =>
        if |fields| == 0 then Patch(ErrorResponse("No valid fields to update", 400), users)
        else
          match FindById(users, auth.value)
          case None => Patch(ErrorResponse("User not found", 404), users)
          case Some(i) =>
            var doc := Updated(users[i].doc, fields, now);
            Patch(SuccessResponse("", Some(UserPayload(Strip(doc)))), users[i := UserEntry(users[i].id, doc)])
  }

  /**
   * The merge changes only what the handler means to change: the allowed
   * fields the body supplied, set to their trimmed text, and `updatedAt`.
   * Every other field keeps its presence and its value, among them
   * `email`, `passwordHash`, `isActive` and `createdAt`.
   */
  lemma MergeChangesOnlyAllowed(doc: Doc, v: Value, now: int)
    requires Collect(v, AllowedFields).Collected?
    ensures var after := Updated(doc, Collect(v, AllowedFields).fields, now);
      && after["updatedAt"] == Time(now)
      && (forall k :: k in AllowedFields && v.Obj? && k in v.fields ==>
            v.fields[k].Str? && k in after && after[k] == Str(Trim(v.fields[k].s)))
      && (forall k :: k !in AllowedFields && k != "updatedAt" ==> (k in after <==> k in doc))
      && (forall k :: k !in AllowedFields && k != "updatedAt" && k in doc ==> after[k] == doc[k])
  {
    CollectFields(v, AllowedFields);
    assert "updatedAt" !in AllowedFields;
  }

  /**
   * A successful PATCH had an object body and found the caller's document;
   * it replaces that one document by the merge, leaves every other user as
   * it was, and answers with the merged document without its hash.
   */
  lemma PatchChangesOneUser(users: seq<UserEntry>, auth: Option<string>, body: Body, now: int)
    requires PatchOutcome(users, auth, body, now).response.Reply? && PatchOutcome(users, auth, body, now).response.success
    ensures Authenticated(auth) && body.Parsed? && body.value.Obj?
    ensures Collect(body.value, AllowedFields).Collected? && FindById(users, auth.value).Some?
    ensures var i := FindById(users, auth.value).value;
      var after := Updated(users[i].doc, Collect(body.value, AllowedFields).fields, now);
      && PatchOutcome(users, auth, body, now).users == users[i := UserEntry(users[i].id, after)]
      && PatchOutcome(users, auth, body, now).response.data == Some(UserPayload(Strip(after)))
  {
    CollectThrown(body.value, AllowedFields);
    CollectFields(body.value, AllowedFields);
  }

  /**
   * The first allowed field, in the order displayName, avatarUrl, bio,
   * whose value is present but not a string is the one the 400 answer
   * names, and nothing changes.
   */
  lemma PatchFirstBadField(users: seq<UserEntry>, auth: Option<string>, body: Body, now: int, i: nat)
    requires Authenticated(auth) && body.Parsed?
    requires i < |AllowedFields| && BadField(body.value, AllowedFields[i])
    requires forall j :: 0 <= j < i ==> !BadField(body.value, AllowedFields[j])
    ensures PatchOutcome(users, auth, body, now) == Patch(ErrorResponse(AllowedFields[i] + " must be a string", 400), users)
  {
    var keys := AllowedFields;
    CollectRejected(body.value, keys);
    CollectThrown(body.value, keys);
    var k :| FirstBadField(body.value, keys, k) && Collect(body.value, keys).message == keys[k] + " must be a string";
    assert FirstBadField(body.value, keys, i);
    assert k == i;
  }

  /**
   * A body holding none of the allowed fields (other keys are ignored), or
   * an array, is refused with "No valid fields to update".
   */
  lemma PatchNothingToUpdate(users: seq<UserEntry>, auth: Option<string>, body: Body, now: int)
    requires Authenticated(auth) && body.Parsed? && (body.value.Obj? || body.value.Arr?)
    requires body.value.Obj? ==> forall k :: k in AllowedFields ==> k !in body.value.fields
    ensures PatchOutcome(users, auth, body, now) == Patch(ErrorResponse("No valid fields to update", 400), users)
  {
    CollectThrown(body.value, AllowedFields);
    CollectRejected(body.value, AllowedFields);
    var c := Collect(body.value, AllowedFields);
    CollectFields(body.value, AllowedFields);
    assert c.fields.Keys == {};
  }

  /** After a successful PATCH, the caller's document is still the first one with the caller's id. */
  lemma PatchKeepsPlace(users: seq<UserEntry>, i: nat, doc: Doc, id: string)
    requires FindById(users, id) == Some(i)
    ensures FindById(users[i := UserEntry(users[i].id, doc)], id) == Some(i)
  {
    var after := users[i := UserEntry(users[i].id, doc)];
    assert after[i].id == id;
    assert forall j :: 0 <= j < i ==> after[j] == users[j];
    var r := FindById(after, id);
    assert r.Some? && after[r.value].id == id;
  }

  /**
   * What a successful PATCH answers with: each allowed field the body sent,
   * trimmed; no password hash; every other field except `updatedAt` as it
   * was stored.
   */
  lemma ShownAfterMerge(doc: Doc, v: Value, now: int)
    requires Collect(v, AllowedFields).Collected?
    ensures var shown := Strip(Updated(doc, Collect(v, AllowedFields).fields, now));
      && "passwordHash" !in shown
      && (forall k :: k in AllowedFields && v.Obj? && k in v.fields ==>
            v.fields[k].Str? && k in shown && shown[k] == Str(Trim(v.fields[k].s)))
      && (forall k :: k !in AllowedFields && k != "updatedAt" && k != "passwordHash" ==>
            (k in shown <==> k in doc) && (k in shown ==> shown[k] == doc[k]))
  {
    MergeChangesOnlyAllowed(doc, v, now);
    assert "passwordHash" !in AllowedFields;
  }

  /**
   * PATCH then GET: once a PATCH succeeds, a GET by the same user answers
   * with exactly the document the PATCH answered with. It shows each
   * allowed field the body sent, trimmed; no password hash; and every
   * other field except `updatedAt` as it was stored before.
   */
  lemma PatchThenGet(users: seq<UserEntry>, auth: Option<string>, body: Body, now: int)
    requires PatchOutcome(users, auth, body, now).response.Reply? && PatchOutcome(users, auth, body, now).response.success
    ensures Authenticated(auth) && body.Parsed? && body.value.Obj? && FindById(users, auth.value).Some?
    ensures var got := GetProfile(PatchOutcome(users, auth, body, now).users, auth);
      && got == SuccessResponse("success", Some(PatchOutcome(users, auth, body, now).response.data.value.user))
      && "passwordHash" !in got.data.value
      && (forall k :: k in AllowedFields && k in body.value.fields ==>
            body.value.fields[k].Str? && k in got.data.value && got.data.value[k] == Str(Trim(body.value.fields[k].s)))
      && (forall k :: k !in AllowedFields && k != "updatedAt" && k != "passwordHash" ==>
            && (k in got.data.value <==> k in users[FindById(users, auth.value).value].doc)
            && (k in got.data.value ==> got.data.value[k] == users[FindById(users, auth.value).value].doc[k]))
  {
    PatchChangesOneUser(users, auth, body, now);
    var i := FindById(users, auth.value).value;
    var doc := users[i].doc;
    var after := Updated(doc, Collect(body.value, AllowedFields).fields, now);
    var p := PatchOutcome(users, auth, body, now);
    assert p.users == users[i := UserEntry(users[i].id, after)] && p.response.data == Some(UserPayload(Strip(after)));
    PatchKeepsPlace(users, i, after, auth.value);
    assert GetProfile(p.users, auth) == SuccessResponse("success", Some(Strip(after)));
    ShownAfterMerge(doc, body.value, now);
  }

  /** The loop over a body holding only a string `displayName` collects that field, trimmed. */
  lemma CollectRename(name: string)
    ensures Collect(Obj(map["displayName" := Str(name)]), AllowedFields) == Collected(map["displayName" := Str(Trim(name))])
  {
    var v := Obj(map["displayName" := Str(name)]);
    var m := map["displayName" := Str(Trim(name))];
    assert AllowedFields[..1] == ["displayName"] && AllowedFields[..1][..0] == [];
    assert Collect(v, AllowedFields[..1]) == Collected(m);
    assert AllowedFields[..2] == ["displayName", "avatarUrl"] && AllowedFields[..2][..1] == AllowedFields[..1];
    assert Collect(v, AllowedFields[..2]) == Collected(m);
    assert AllowedFields[..3] == AllowedFields && AllowedFields[..3][..2] == AllowedFields[..2];
  }

  /**
   * Renaming: a PATCH whose body holds only a string `displayName` succeeds
   * for a stored user, and a following GET shows the trimmed name.
   */
  lemma RenameThenGet(users: seq<UserEntry>, auth: Option<string>, name: string, now: int)
    requires Authenticated(auth) && FindById(users, auth.value).Some?
    ensures var p := PatchOutcome(users, auth, Parsed(Obj(map["displayName" := Str(name)])), now);
      var got := GetProfile(p.users, auth);
      && p.response.Reply? && p.response.success
      && got.Reply? && got.data.Some? && "displayName" in got.data.value
      && got.data.value["displayName"] == Str(Trim(name))
  {
    var body := Parsed(Obj(map["displayName" := Str(name)]));
    CollectRename(name);
    assert Collect(body.value, AllowedFields) != Collected(map[]) by {
      assert "displayName" in Collect(body.value, AllowedFields).fields;
    }
    PatchThenGet(users, auth, body, now);
    assert "displayName" in AllowedFields && "displayName" in body.value.fields;
  }

  /**
   * PATCH keeps emails unique: the merge never touches `email`, and no
   * other user changes.
   */
  lemma PatchKeepsEmailsUnique(users: seq<UserEntry>, auth: Option<string>, body: Body, now: int)
    requires EmailsUnique(users)
    ensures EmailsUnique(PatchOutcome(users, auth, body, now).users)
  {
    var p := PatchOutcome(users, auth, body, now);
    if p.response.Reply? && p.response.success {
      PatchChangesOneUser(users, auth, body, now);
      var i := FindById(users, auth.value).value;
      MergeChangesOnlyAllowed(users[i].doc, body.value, now);
      assert "email" !in AllowedFields;
      assert forall e :: HasEmail(p.users[i], e) <==> HasEmail(users[i], e);
      assert forall k :: 0 <= k < |users| ==> (forall e :: HasEmail(p.users[k], e) <==> HasEmail(users[k], e));
    }
  }
}
