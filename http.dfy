/**
 * The HTTP errors the routers raise (FastAPI's `HTTPException`, and the
 * 500 reply FastAPI gives for an exception nobody handles), and the reply
 * of a route: a response body or one of those errors.
 */
module Http {

  datatype HttpError =
    | EmailAlreadyRegistered  // sign-up with an email that is already stored
    | InvalidCredentials      // login with an unknown email or a wrong password
    | IntegrityError          // a commit that violates a table constraint
  {
    function Status(): nat {
      match this
      case EmailAlreadyRegistered => 400
      case InvalidCredentials => 401
      case IntegrityError => 500
    }

    function Detail(): string {
      match this
      case EmailAlreadyRegistered => "Email already registered"
      case InvalidCredentials => "Invalid email or password"
      case IntegrityError => "Internal Server Error"
    }
  }

  datatype Response<+T> = Ok(value: T) | Err(error: HttpError)
}
