/** The user record as it arrives in a request; a missing element is `None`. */
module UserDto {
  import opened Errors
  import opened Validation

  datatype User = User(id: int, username: Option<string>, password: Option<string>, email: Option<string>,
                       dateCreated: int, salt: Option<string>, statusId: int)

  const IdMessage := "Id must be positive."
  const UsernameMessage := "Username must be between 5 and 15 characters."
  const PasswordMessage := "Password must be between 7 and 25 characters."
  const EmailMessage := "Email must be between 10 and 30 characters."
  const StatusIdMessage := "Status id must be greater than 0."

  /** A present text's length lies in [lo, hi]; an absent one is not checked. */
  predicate LengthWithin(s: Option<string>, lo: int, hi: int) {
    s.None? || lo <= |s.value| <= hi
  }

  /** The checks of `Validate` in declaration order, each stated as the range it admits. */
  function Rules(u: User): seq<Rule> {
    [ Rule(u.id >= 0, IdMessage),
      Rule(LengthWithin(u.username, 5, 15), UsernameMessage),
      Rule(LengthWithin(u.password, 7, 25), PasswordMessage),
      Rule(LengthWithin(u.email, 10, 30), EmailMessage),
      Rule(u.statusId >= 0, StatusIdMessage) ]
  }

  function Validate(u: User): (r: Result<User>)
    ensures r.Ok? <==> && u.id >= 0 && u.statusId >= 0
                       && (u.username.Some? ==> 5 <= |u.username.value| <= 15)
                       && (u.password.Some? ==> 7 <= |u.password.value| <= 25)
                       && (u.email.Some? ==> 10 <= |u.email.value| <= 30)
    ensures r.Ok? ==> r.value == u
    ensures r == Verdict(Rules(u), u)
  {
    if u.id != 0 && u.id < 0 then
      FirstViolationAt(Rules(u), 0);
      Err(BadRequest(IdMessage))
    else if u.username.Some? && (|u.username.value| < 5 || |u.username.value| > 15) then
      FirstViolationAt(Rules(u), 1);
      Err(BadRequest(UsernameMessage))
    else if u.password.Some? && (|u.password.value| < 7 || |u.password.value| > 25) then
      FirstViolationAt(Rules(u), 2);
      Err(BadRequest(PasswordMessage))
    else if u.email.Some? && (|u.email.value| < 10 || |u.email.value| > 30) then
      FirstViolationAt(Rules(u), 3);
      Err(BadRequest(EmailMessage))
    else if u.statusId != 0 && u.statusId < 1 then
      FirstViolationAt(Rules(u), 4);
      Err(BadRequest(StatusIdMessage))
    else Ok(u)
  }
}
