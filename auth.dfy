/** The authentication routes: sign-up and login. */
module Auth {
  import opened Wrappers
  import opened Http
  import opened Users
  import opened AuthSchemas
  import opened AuthUtils

  /**
   * What a sign-up does to the table `users` and what it replies, given
   * the id the insert generates. An email already on file is rejected
   * with 400 and no change; otherwise exactly one record is added under
   * the new id, holding the hash of the password, no bio and the active
   * flag set, and the reply is a bearer token for the new id.
   */
  function SignUpOutcome(users: Table, utils: Utils, request: SignUpRequest, newId: string): (o: Outcome<TokenResponse>)
    requires newId !in users && IsGeneratedId(newId)
    ensures EmailRegistered(users, request.email) <==> o.response.Err?
    ensures o.response.Err? ==> o.users == users && o.response.error == EmailAlreadyRegistered
                                && o.response.error.Status() == 400
                                && o.response.error.Detail() == "Email already registered"
    ensures o.response.Ok? ==>
              && o.users.Keys == users.Keys + {newId}
              && (forall id | id in users :: o.users[id] == users[id])
              && o.users[newId].id == newId
              && o.users[newId].email == request.email
              && o.users[newId].name == request.name
              && o.users[newId].password == utils.hashPassword(request.password)
              && o.users[newId].bio == None
              && o.users[newId].isActive
              && o.response.value.accessToken == utils.createAccessToken(newId)
              && o.response.value.tokenType == "bearer"
  {
    if EmailRegistered(users, request.email) then
      Outcome(users, Err(EmailAlreadyRegistered))
    else
      var user := NewUser(newId, request.email, utils.hashPassword(request.password), request.name);
      Outcome(users[newId := user], Ok(Bearer(utils.createAccessToken(user.id))))
  }

  /** `sign_up`: check the email, then insert the hashed record and issue a token. */
  method SignUp(db: UserStore, utils: Utils, request: SignUpRequest, newId: string) returns (r: Response<TokenResponse>)
    requires db.Valid()
    requires newId !in db.users && IsGeneratedId(newId)
    modifies db
    ensures db.Valid()
    ensures var o := SignUpOutcome(old(db.users), utils, request, newId); db.users == o.users && r == o.response
  {
    var existing := FindByEmail(db.users, request.email);
    if existing.Some? {
      return Err(EmailAlreadyRegistered);
    }
    var hashed := utils.hashPassword(request.password);
    var user := NewUser(newId, request.email, hashed, request.name);
    SignUpKeepsWellformed(db.users, utils, request, newId);
    db.users := db.users[newId := user];
    var token := utils.createAccessToken(user.id);
    r := Ok(Bearer(token));
  }

  /**
   * `login`: the token of the user with this email when the password
   * verifies against the stored hash; 401 otherwise. The active flag is
   * not consulted, and the table is only read.
   */
  function Login(users: Table, utils: Utils, request: LoginRequest): (r: Response<TokenResponse>)
    requires EmailsUnique(users)
    ensures r.Ok? <==> exists id | id in users ::
                         users[id].email == request.email
                         && utils.verifyPassword(request.password, users[id].password)
    ensures r.Ok? ==> exists id | id in users ::
                        users[id].email == request.email
                        && r.value == TokenResponse(utils.createAccessToken(users[id].id), "bearer")
    ensures r.Err? ==> r.error == InvalidCredentials
                       && r.error.Status() == 401
                       && r.error.Detail() == "Invalid email or password"
  {
    match FindByEmail(users, request.email)
    case None => Err(InvalidCredentials)
    case Some(id) =>
      if !utils.verifyPassword(request.password, users[id].password) then
        Err(InvalidCredentials)
      else
        Ok(Bearer(utils.createAccessToken(users[id].id)))
  }

  /** A sign-up keeps the table's constraints, whether it succeeds or not. */
  lemma SignUpKeepsWellformed(users: Table, utils: Utils, request: SignUpRequest, newId: string)
    requires Wellformed(users)
    requires newId !in users && IsGeneratedId(newId)
    ensures Wellformed(SignUpOutcome(users, utils, request, newId).users)
  {
  }

  /** A sign-up only ever stores a password that came out of the hash. */
  lemma SignUpKeepsHashedAtRest(users: Table, utils: Utils, request: SignUpRequest, newId: string)
    requires HashedAtRest(users, utils.hashPassword)
    requires newId !in users && IsGeneratedId(newId)
    ensures HashedAtRest(SignUpOutcome(users, utils, request, newId).users, utils.hashPassword)
  {
  }

  /**
   * Signing up twice with the same email: whatever the first attempt
   * did, the second is rejected with 400 and changes nothing.
   */
  lemma SecondSignUpRejected(users: Table, utils: Utils, first: SignUpRequest, firstId: string,
                             second: SignUpRequest, secondId: string)
    requires firstId !in users && IsGeneratedId(firstId)
    requires secondId !in users && secondId != firstId && IsGeneratedId(secondId)
    requires second.email == first.email
    ensures var after := SignUpOutcome(users, utils, first, firstId).users;
            secondId !in after
            && SignUpOutcome(after, utils, second, secondId) == Outcome(after, Err(EmailAlreadyRegistered))
  {
  }

  /** Login fails with the same error for an unknown email and for a wrong password. */
  lemma LoginFailuresIndistinguishable(users: Table, utils: Utils, unknown: LoginRequest, wrong: LoginRequest)
    requires EmailsUnique(users)
    requires !EmailRegistered(users, unknown.email)
    requires EmailRegistered(users, wrong.email)
    requires forall id | id in users && users[id].email == wrong.email ::
               !utils.verifyPassword(wrong.password, users[id].password)
    ensures Login(users, utils, unknown) == Login(users, utils, wrong) == Err(InvalidCredentials)
  {
  }

  /** Login does not look at the active flag: a soft-deleted user can still log in. */
  lemma LoginIgnoresActivity(users: Table, utils: Utils, request: LoginRequest, id: string, isActive: bool)
    requires EmailsUnique(users) && id in users
    ensures EmailsUnique(users[id := users[id].(isActive := isActive)])
    ensures Login(users[id := users[id].(isActive := isActive)], utils, request) == Login(users, utils, request)
  {
    var changed := users[id := users[id].(isActive := isActive)];
    assert forall k | k in users :: changed[k].email == users[k].email && changed[k].password == users[k].password;
    var found, found' := FindByEmail(users, request.email), FindByEmail(changed, request.email);
    assert found == found';
  }

  /**
   * Right after a successful sign-up, logging in with the same email
   * succeeds exactly when `verifyPassword` accepts the password against
   * the stored hash, and then yields the token of the new id.
   */
  lemma LoginAfterSignUp(users: Table, utils: Utils, request: SignUpRequest, newId: string, password: string)
    requires Wellformed(users)
    requires newId !in users && IsGeneratedId(newId)
    requires !EmailRegistered(users, request.email)
    ensures var after := SignUpOutcome(users, utils, request, newId).users;
            EmailsUnique(after)
            && Login(after, utils, LoginRequest(request.email, password))
               == if utils.verifyPassword(password, utils.hashPassword(request.password))
                  then Ok(Bearer(utils.createAccessToken(newId)))
                  else Err(InvalidCredentials)
  {
  }
}
