/** Request and response bodies of the profile routes. */
module ProfileSchemas {
  import opened Wrappers
  import opened Users

  /**
   * The public view of a user. The schema declares `name` optional, but
   * the column it is read from is non-null, so it is always present here.
   */
  datatype ProfileResponse = ProfileResponse(id: string, email: string, name: string, bio: Option<string>)

  /** A partial update: `None` means "not supplied". */
  datatype ProfileUpdateRequest = ProfileUpdateRequest(name: Option<string>, bio: Option<string>)

  /** The body of a delete request: optional new id and new name. */
  datatype ProfileDeleteRequest = ProfileDeleteRequest(id: Option<string>, name: Option<string>)

  /** `ProfileResponse.model_validate(user)`: read the response fields off the record. */
  function FromUser(u: User): ProfileResponse {
    ProfileResponse(u.id, u.email, u.name, u.bio)
  }

  /**
   * The response reveals nothing of the password hash or of the active
   * flag: records that differ only there give the same response.
   */
  lemma FromUserOmitsPasswordAndActivity(u: User, password: string, isActive: bool)
    ensures FromUser(u.(password := password, isActive := isActive)) == FromUser(u)
  {
  }
}
