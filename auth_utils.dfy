/**
 * The password and token helpers the routers call. Their implementation
 * is not part of this model: they are uninterpreted total functions, and
 * nothing is assumed about them (not even that verifying a password
 * against its own hash succeeds). Being functions, they are deterministic:
 * the salt of the hash and the clock of the token are not modelled.
 */
module AuthUtils {

  datatype Utils = Utils(
    hashPassword: string -> string,              // hash_password(plaintext)
    verifyPassword: (string, string) -> bool,    // verify_password(plaintext, digest)
    createAccessToken: string -> string          // create_access_token({"user_id": id})
  )
}
