/** How a request to the marketplace ends: with a value, or with the reason
    the view stopped before doing its work. */
module Results {

  datatype Option<+T> = None | Some(value: T)

  /** The early exits of the views. Each leaves the store as it was. */
  datatype Failure =
    | LoginRequired    // @login_required redirects an anonymous actor to the login view
    | AlreadySignedIn  // login and register redirect an authenticated actor to the index
    | InvalidForm      // validate_on_submit() is false: the form is shown again with its errors
    | EmailTaken       // register finds the email already held (views.py 57-60)
    | NotFound         // get_or_404 on a missing id
    | Forbidden        // abort(403) when the actor does not own the shop
    | BadCredentials   // login: unknown email or wrong password, one message for both
    | WrongPassword    // change_password: the old password does not check
    | UploadFailed     // add_product: the try block raised and the session was rolled back

  datatype Response<+T> = Ok(value: T) | Fail(failure: Failure)
}
