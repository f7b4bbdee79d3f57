/**
 * The application serving requests one after another, each routed to the
 * authentication or profile routes, against one table.
 */
module Service {
  import opened Wrappers
  import opened Users
  import opened AuthSchemas
  import opened ProfileSchemas
  import opened AuthUtils
  import Auth
  import Profile

  /**
   * One request. A sign-up carries the id its insert generates; a profile
   * request carries the key its token resolves to.
   */
  datatype Request =
    | SignUpCall(signUp: SignUpRequest, newId: string)
    | LoginCall(login: LoginRequest)
    | ReadCall(caller: string)
    | UpdateCall(caller: string, updates: ProfileUpdateRequest)
    | DeleteCall(caller: string, delete: ProfileDeleteRequest)

  /**
   * The request is one the routes are defined for: a generated id not yet
   * in use, a caller whose token resolves to a stored record.
   */
  predicate Admissible(users: Table, request: Request) {
    match request
    case SignUpCall(_, newId) => newId !in users && IsGeneratedId(newId)
    case LoginCall(_) => true
    case ReadCall(caller) => caller in users
    case UpdateCall(caller, _) => caller in users
    case DeleteCall(caller, _) => caller in users
  }

  /** The table after serving one admissible request. */
  function Serve(users: Table, utils: Utils, request: Request): (after: Table)
    requires Wellformed(users) && Admissible(users, request)
    ensures Wellformed(after)
  {
    match request
    case SignUpCall(signUp, newId) =>
      Auth.SignUpKeepsWellformed(users, utils, signUp, newId);
      Auth.SignUpOutcome(users, utils, signUp, newId).users
    case LoginCall(_) => users
    case ReadCall(_) => users
    case UpdateCall(caller, updates) =>
      Profile.UpdateKeepsWellformed(users, caller, updates);
      Profile.UpdateOutcome(users, caller, updates).users
    case DeleteCall(caller, delete) =>
      Profile.DeleteKeepsWellformed(users, caller, delete);
      Profile.DeleteOutcome(users, caller, delete).users
  }

  /**
   * The table after serving the requests in order, or `None` when one of
   * them is not admissible at the point it is served.
   */
  function ServeAll(users: Table, utils: Utils, requests: seq<Request>): (final: Option<Table>)
    requires Wellformed(users)
    ensures final.Some? ==> Wellformed(final.value)
    ensures requests == [] ==> final == Some(users)
    decreases |requests|
  {
    if requests == [] then Some(users)
    else if !Admissible(users, requests[0]) then None
    else ServeAll(Serve(users, utils, requests[0]), utils, requests[1..])
  }

  /** No request ever stores a password that did not come out of the hash. */
  lemma ServeKeepsHashedAtRest(users: Table, utils: Utils, request: Request)
    requires Wellformed(users) && Admissible(users, request)
    requires HashedAtRest(users, utils.hashPassword)
    ensures HashedAtRest(Serve(users, utils, request), utils.hashPassword)
  {
  }

  /**
   * Keyed by id and for one request only: an inactive key that is still
   * present afterwards is still inactive. Over a run this does not hold by
   * key, because a delete can free a key that a later sign-up reuses; the
   * run-long form is `ServeAllKeepsInactiveEmail`.
   */
  lemma ServeNeverReactivates(users: Table, utils: Utils, request: Request, id: string)
    requires Wellformed(users) && Admissible(users, request)
    requires id in users && !users[id].isActive
    ensures var after := Serve(users, utils, request);
            id in after ==> !after[id].isActive
  {
  }

  /**
   * A soft-deleted user stays soft-deleted: if the record with some email
   * is inactive before a request, a record with that email is inactive
   * after it, even when the request moved the record to another key.
   */
  lemma ServeKeepsInactiveEmail(users: Table, utils: Utils, request: Request, email: string)
    requires Wellformed(users) && Admissible(users, request)
    requires InactiveEmail(users, email)
    ensures InactiveEmail(Serve(users, utils, request), email)
  {
    var id :| id in users && users[id].email == email && !users[id].isActive;
    var after := Serve(users, utils, request);
    if request.DeleteCall? {
      var o := Profile.DeleteOutcome(users, request.caller, request.delete);
      var key := if o.response.Ok? && id == request.caller then Profile.DeleteKey(request.caller, request.delete) else id;
      assert key in after && after[key].email == email && !after[key].isActive;
    } else {
      assert id in after && after[id].email == email && !after[id].isActive;
    }
  }

  /**
   * Over a whole run, a user that was soft-deleted at the start is still
   * soft-deleted at the end: no sequence of requests reactivates it.
   */
  lemma {:induction false} ServeAllKeepsInactiveEmail(users: Table, utils: Utils, requests: seq<Request>, email: string)
    requires Wellformed(users) && InactiveEmail(users, email)
    ensures var final := ServeAll(users, utils, requests);
            final.Some? ==> InactiveEmail(final.value, email)
    decreases |requests|
  {
    if requests != [] && Admissible(users, requests[0]) {
      ServeKeepsInactiveEmail(users, utils, requests[0], email);
      ServeAllKeepsInactiveEmail(Serve(users, utils, requests[0]), utils, requests[1..], email);
    }
  }

  /**
   * Starting from a table that meets its constraints and holds only
   * hashed passwords, every run of requests ends in such a table.
   */
  lemma {:induction false} ServeAllKeepsInvariants(users: Table, utils: Utils, requests: seq<Request>)
    requires Wellformed(users) && HashedAtRest(users, utils.hashPassword)
    ensures var final := ServeAll(users, utils, requests);
            final.Some? ==> Wellformed(final.value) && HashedAtRest(final.value, utils.hashPassword)
    decreases |requests|
  {
    if requests != [] && Admissible(users, requests[0]) {
      ServeKeepsHashedAtRest(users, utils, requests[0]);
      ServeAllKeepsInvariants(Serve(users, utils, requests[0]), utils, requests[1..]);
    }
  }

  /** The empty table meets every invariant, so every run from it keeps them. */
  lemma RunFromEmptyTable(utils: Utils, requests: seq<Request>)
    ensures var final := ServeAll(map[], utils, requests);
            final.Some? ==> Wellformed(final.value) && HashedAtRest(final.value, utils.hashPassword)
  {
    ServeAllKeepsInvariants(map[], utils, requests);
  }

  /** Login and read requests never change the table. */
  lemma QueriesChangeNothing(users: Table, utils: Utils, request: Request)
    requires Wellformed(users) && Admissible(users, request)
    requires request.LoginCall? || request.ReadCall?
    ensures Serve(users, utils, request) == users
  {
  }
}
