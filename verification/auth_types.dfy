/** Record shapes of the authentication layer: token claims and identity-service replies. */
module AuthTypes {
  import opened Wrappers

  /** The decoded claims of an ID token. `exp` and `iat` are `usize` seconds in the source. */
  datatype Claims = Claims(
    sub: string,
    userId: string,
    phoneNumber: Option<string>,
    email: Option<string>,
    aud: string,
    iss: string,
    exp: nat,
    iat: nat)

  datatype FirebaseError = FirebaseError(message: string)

  /** The identity service's reply to an OTP request; `error` is set when the call failed. */
  datatype FirebaseResponse = FirebaseResponse(
    idToken: Option<string>,
    sessionInfo: Option<string>,
    error: Option<FirebaseError>)
}
