/** Request and response bodies of the authentication routes. */
module AuthSchemas {

  datatype SignUpRequest = SignUpRequest(email: string, password: string, name: string)

  datatype LoginRequest = LoginRequest(email: string, password: string)

  datatype TokenResponse = TokenResponse(accessToken: string, tokenType: string)

  /** The token type every issued token carries. */
  const BearerType: string := "bearer"

  /** The reply of a successful sign-up or login for the given token. */
  function Bearer(token: string): TokenResponse {
    TokenResponse(token, BearerType)
  }
}
