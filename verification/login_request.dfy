/** The sign-in request body and its field-length rules
    (src/controllers/authentication/user_login_request.rs). Lengths count
    Unicode scalar values, as the validator crate does. */
module LoginRequests {
  import opened Results
  import opened Errors

  const USERNAME_MIN: nat := 1
  const USERNAME_MAX: nat := 20
  const PASSWORD_MIN: nat := 6
  const PASSWORD_MAX: nat := 20

  const USERNAME_MESSAGE: string := "username is not blank"
  const PASSWORD_MESSAGE: string := "password is invalid"
  const LENGTH_CODE: string := "length"

  datatype LoginRequest = LoginRequest(username: string, password: string)

  predicate LengthWithin(s: string, min: nat, max: nat) {
    min <= |s| <= max
  }

  /** The error entry one field contributes, if its length rule fails. */
  function FieldCheck(field: string, value: string, min: nat, max: nat, message: string): (r: ValidationErrors)
    ensures field in r <==> !LengthWithin(value, min, max)
    ensures r.Keys <= {field}
  {
    if LengthWithin(value, min, max) then map[] else map[field := FieldError(LENGTH_CODE, message)]
  }

  /** `LoginRequest::validate`: succeeds exactly when both fields are
      within their bounds, and otherwise reports each failing field, and
      only those. */
  function Validate(req: LoginRequest): (r: Result<(), ValidationErrors>)
    ensures r.Ok? <==> 1 <= |req.username| <= 20 && 6 <= |req.password| <= 20
    ensures r.Err? ==> ("username" in r.error <==> !(1 <= |req.username| <= 20))
    ensures r.Err? ==> ("password" in r.error <==> !(6 <= |req.password| <= 20))
    ensures r.Err? ==> r.error.Keys <= {"username", "password"}
    ensures r.Err? && "username" in r.error ==> r.error["username"] == FieldError("length", "username is not blank")
    ensures r.Err? && "password" in r.error ==> r.error["password"] == FieldError("length", "password is invalid")
  {
    var errors :=
      FieldCheck("username", req.username, USERNAME_MIN, USERNAME_MAX, USERNAME_MESSAGE)
      + FieldCheck("password", req.password, PASSWORD_MIN, PASSWORD_MAX, PASSWORD_MESSAGE);
    if errors == map[] then Ok(()) else Err(errors)
  }

  /** The boundary lengths of both rules. */
  lemma ValidateBoundaries()
    ensures Validate(LoginRequest("", "secret")).Err?
    ensures Validate(LoginRequest("alice", "12345")).Err?
    ensures Validate(LoginRequest("abcdefghijklmnopqrstu", "secret")).Err?
    ensures Validate(LoginRequest("alice", "abcdefghijklmnopqrstu")).Err?
    ensures Validate(LoginRequest("abcdefghijklmnopqrst", "abcdefghijklmnopqrst")).Ok?
    ensures Validate(LoginRequest("a", "123456")).Ok?
  {
  }
}
