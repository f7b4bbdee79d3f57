/** The profile routes: read, partial update and soft delete of the caller's own record. */
module Profile {
  import opened Wrappers
  import opened Http
  import opened Users
  import opened ProfileSchemas

  /**
   * `read_my_profile`: the id, email, name and bio of the caller's
   * record. `currentId` is the key the token resolves to.
   */
  function ReadMyProfile(users: Table, currentId: string): (r: ProfileResponse)
    requires currentId in users
    ensures r.id == users[currentId].id && r.email == users[currentId].email
    ensures r.name == users[currentId].name && r.bio == users[currentId].bio
  {
    FromUser(users[currentId])
  }

  /**
   * What `update_my_profile` does: a supplied name or bio replaces the
   * stored one, an omitted one is kept; nothing else of the record and
   * no other record changes. The reply is the updated profile.
   */
  function UpdateOutcome(users: Table, currentId: string, updates: ProfileUpdateRequest): (o: Outcome<ProfileResponse>)
    requires currentId in users
    ensures o.users.Keys == users.Keys
    ensures forall id | id in users && id != currentId :: o.users[id] == users[id]
    ensures var before, after := users[currentId], o.users[currentId];
            && after.id == before.id
            && after.email == before.email
            && after.password == before.password
            && after.isActive == before.isActive
            && (updates.name.Some? ==> after.name == updates.name.value)
            && (updates.name.None? ==> after.name == before.name)
            && (updates.bio.Some? ==> after.bio == updates.bio)
            && (updates.bio.None? ==> after.bio == before.bio)
    ensures o.response == Ok(ReadMyProfile(o.users, currentId))
  {
    var before := users[currentId];
    var user := before.(name := updates.name.GetOr(before.name),
                        bio := if updates.bio.Some? then updates.bio else before.bio);
    Outcome(users[currentId := user], Ok(FromUser(user)))
  }

  /** `update_my_profile`: assign the supplied fields of the caller's record and persist it. */
  method UpdateMyProfile(db: UserStore, currentId: string, updates: ProfileUpdateRequest) returns (r: Response<ProfileResponse>)
    requires db.Valid() && currentId in db.users
    modifies db
    ensures db.Valid()
    ensures var o := UpdateOutcome(old(db.users), currentId, updates); db.users == o.users && r == o.response
  {
    var user := db.users[currentId];
    if updates.name.Some? {
      user := user.(name := updates.name.value);
    }
    if updates.bio.Some? {
      user := user.(bio := updates.bio);
    }
    UpdateKeepsWellformed(db.users, currentId, updates);
    db.users := db.users[currentId := user];
    r := Ok(FromUser(user));
  }

  /** The key the caller's record sits under after a delete with this body. */
  function DeleteKey(currentId: string, delete: ProfileDeleteRequest): string {
    delete.id.GetOr(currentId)
  }

  /** The delete body moves the record onto a key another record holds. */
  predicate DeleteConflicts(users: Table, currentId: string, delete: ProfileDeleteRequest) {
    DeleteKey(currentId, delete) != currentId && DeleteKey(currentId, delete) in users
  }

  /**
   * What `delete_my_profile` does. A supplied id replaces the record's id
   * (the record moves to that key) and a supplied name its name; then the
   * record is marked inactive. Email, password and bio are kept, and no
   * other record changes. Moving onto a key another record already holds
   * violates the primary key: the commit fails with 500 and the table is
   * unchanged.
   */
  function DeleteOutcome(users: Table, currentId: string, delete: ProfileDeleteRequest): (o: Outcome<ProfileResponse>)
    requires currentId in users
    ensures o.response.Err? <==> DeleteConflicts(users, currentId, delete)
    ensures o.response.Err? ==> o.users == users && o.response.error == IntegrityError && o.response.error.Status() == 500
    ensures o.response.Ok? ==>
              var key := DeleteKey(currentId, delete);
              && o.users.Keys == users.Keys - {currentId} + {key}
              && (forall id | id in users && id != currentId :: o.users[id] == users[id])
              && var before, after := users[currentId], o.users[key];
                 && !after.isActive
                 && after.email == before.email
                 && after.password == before.password
                 && after.bio == before.bio
                 && (delete.id.Some? ==> after.id == delete.id.value)
                 && (delete.id.None? ==> after.id == before.id)
                 && (delete.name.Some? ==> after.name == delete.name.value)
                 && (delete.name.None? ==> after.name == before.name)
                 && o.response.value == ReadMyProfile(o.users, key)
  {
    if DeleteConflicts(users, currentId, delete) then
      Outcome(users, Err(IntegrityError))
    else
      var before := users[currentId];
      var user := before.(id := delete.id.GetOr(before.id),
                          name := delete.name.GetOr(before.name),
                          isActive := false);
      Outcome((users - {currentId})[DeleteKey(currentId, delete) := user], Ok(FromUser(user)))
  }

  /**
   * `delete_my_profile`: overwrite the id and name the body supplies, mark
   * the record inactive and persist it under its (possibly new) id.
   */
  method DeleteMyProfile(db: UserStore, currentId: string, delete: ProfileDeleteRequest) returns (r: Response<ProfileResponse>)
    requires db.Valid() && currentId in db.users
    modifies db
    ensures db.Valid()
    ensures var o := DeleteOutcome(old(db.users), currentId, delete); db.users == o.users && r == o.response
  {
    var user := db.users[currentId];
    if delete.id.Some? {
      user := user.(id := delete.id.value);
    }
    if delete.name.Some? {
      user := user.(name := delete.name.value);
    }
    user := user.(isActive := false);
    // The commit writes the row back under `user.id`, keyed by its old id.
    if user.id != currentId && user.id in db.users {
      return Err(IntegrityError);
    }
    DeleteKeepsWellformed(db.users, currentId, delete);
    db.users := (db.users - {currentId})[user.id := user];
    r := Ok(FromUser(user));
  }

  /** An update keeps the table's constraints. */
  lemma UpdateKeepsWellformed(users: Table, currentId: string, updates: ProfileUpdateRequest)
    requires Wellformed(users) && currentId in users
    ensures Wellformed(UpdateOutcome(users, currentId, updates).users)
  {
  }

  /** An update never touches a stored password. */
  lemma UpdateKeepsHashedAtRest(users: Table, hash: string -> string, currentId: string, updates: ProfileUpdateRequest)
    requires HashedAtRest(users, hash) && currentId in users
    ensures HashedAtRest(UpdateOutcome(users, currentId, updates).users, hash)
  {
  }

  /** An update with neither field supplied leaves the table exactly as it was. */
  lemma EmptyUpdateChangesNothing(users: Table, currentId: string)
    requires currentId in users
    ensures UpdateOutcome(users, currentId, ProfileUpdateRequest(None, None)).users == users
  {
  }

  /** The profile an update replies with is what a following read returns. */
  lemma ReadAfterUpdate(users: Table, currentId: string, updates: ProfileUpdateRequest)
    requires currentId in users
    ensures var o := UpdateOutcome(users, currentId, updates);
            currentId in o.users && o.response == Ok(ReadMyProfile(o.users, currentId))
  {
  }

  /**
   * A delete keeps the table's constraints: the moved record sits under
   * its new id, and its email stays the only copy of that email.
   */
  lemma DeleteKeepsWellformed(users: Table, currentId: string, delete: ProfileDeleteRequest)
    requires Wellformed(users) && currentId in users
    ensures Wellformed(DeleteOutcome(users, currentId, delete).users)
  {
  }

  /** A delete never touches a stored password. */
  lemma DeleteKeepsHashedAtRest(users: Table, hash: string -> string, currentId: string, delete: ProfileDeleteRequest)
    requires HashedAtRest(users, hash) && currentId in users
    ensures HashedAtRest(DeleteOutcome(users, currentId, delete).users, hash)
  {
  }

  /**
   * A delete with an empty body only clears the active flag of the
   * caller's record; the record keeps its key and a following read of
   * the same caller still succeeds and returns the reply.
   */
  lemma EmptyDeleteOnlyDeactivates(users: Table, currentId: string)
    requires currentId in users
    ensures var o := DeleteOutcome(users, currentId, ProfileDeleteRequest(None, None));
            && o.users == users[currentId := users[currentId].(isActive := false)]
            && o.response == Ok(ReadMyProfile(o.users, currentId))
  {
  }

  /**
   * A delete whose body names a fresh id moves the record: afterwards the
   * caller's old id no longer resolves and the record, inactive, sits
   * under the new id.
   */
  lemma DeleteRekeyOrphansCaller(users: Table, currentId: string, delete: ProfileDeleteRequest)
    requires currentId in users
    requires delete.id.Some? && delete.id.value != currentId && delete.id.value !in users
    ensures var o := DeleteOutcome(users, currentId, delete);
            && o.response.Ok?
            && currentId !in o.users
            && delete.id.value in o.users
            && o.users[delete.id.value].id == delete.id.value
            && !o.users[delete.id.value].isActive
  {
  }
}
