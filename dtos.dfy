/** `CreateUserDto` and the data-annotation rules the framework checks before the
    controller action runs. */
module Dtos {
  import opened Wrappers
  import opened Text
  import PasswordValidation

  const UsernameRequiredMessage := "Username is required."
  const UsernameLengthMessage := "Username must be between 3 and 50 characters."
  /** `[StringLength(50, MinimumLength = 3)]`. */
  const UsernameMinLength: nat := 3
  const UsernameMaxLength: nat := 50

  const UsernameMessages: set<string> := {UsernameRequiredMessage, UsernameLengthMessage}

  /** The request body as bound from JSON: a string property may be `null`. */
  datatype CreateUserDto = CreateUserDto(username: Option<string>, email: string, password: Option<string>)

  /** A request that passed validation, as the service receives it. */
  datatype Request = Request(username: string, email: string, password: string)

  /** The messages of the two attributes on `Username`. Both run: `[Required]` fails on
      `null` and on an all-white-space string; `[StringLength]` accepts `null` and fails on
      a string of fewer than 3 or more than 50 characters. */
  function UsernameErrors(username: Option<string>): (errors: set<string>)
    ensures errors <= UsernameMessages
    ensures UsernameRequiredMessage in errors <==>
      username.None? || forall i :: 0 <= i < |username.value| ==> IsWhiteSpace(username.value[i])
    ensures UsernameLengthMessage in errors <==>
      username.Some? && !(UsernameMinLength <= |username.value| <= UsernameMaxLength)
  {
    var required := if username.None? || IsBlank(username.value) then {UsernameRequiredMessage} else {};
    var length :=
      if username.Some? && (|username.value| < UsernameMinLength || |username.value| > UsernameMaxLength)
      then {UsernameLengthMessage} else {};
    required + length
  }

  /** The message of `[PasswordValidation]` on `Password`, as a set. */
  function PasswordErrors(password: Option<string>): (errors: set<string>)
    ensures errors <= PasswordValidation.Messages
    ensures |errors| <= 1
    ensures forall m :: m in errors <==> PasswordValidation.IsValid(password) == Some(m)
  {
    match PasswordValidation.IsValid(password)
    case None => {}
    case Some(message) => {message}
  }

  /** The two families of messages have nothing in common. */
  lemma MessagesDisjoint()
    ensures UsernameMessages * PasswordValidation.Messages == {}
  {
  }

  /** All validation messages of a request body. The username part is exactly what the
      username attributes report and the password part exactly what the password policy
      reports; the body is valid iff both report nothing. */
  function Validate(dto: CreateUserDto): (errors: set<string>)
    ensures errors <= UsernameMessages + PasswordValidation.Messages
    ensures errors * UsernameMessages == UsernameErrors(dto.username)
    ensures errors * PasswordValidation.Messages == PasswordErrors(dto.password)
    ensures errors == {} <==> UsernameErrors(dto.username) == {} && PasswordValidation.IsValid(dto.password).None?
  {
    MessagesDisjoint();
    UsernameErrors(dto.username) + PasswordErrors(dto.password)
  }

  /** `[ApiController]`: a body with any validation message is answered 400 before the action
      runs, so only a valid body becomes a `Request` and reaches `RegisterUser`. */
  function Admit(dto: CreateUserDto): (r: Option<Request>)
    ensures r.Some? <==> Validate(dto) == {}
    ensures r.Some? ==> 
      && dto.username == Some(r.value.username) && dto.password == Some(r.value.password)
      && r.value.email == dto.email
      && UsernameMinLength <= |r.value.username| <= UsernameMaxLength
      && PasswordValidation.IsValid(Some(r.value.password)).None?
  {
    if Validate(dto) == {} then Some(Request(dto.username.value, dto.email, dto.password.value))
    else None
  }

  /** The username examples of the controller tests. */
  lemma UsernameExamples()
    ensures UsernameErrors(Some("")) == UsernameMessages
    ensures UsernameErrors(Some("u")) == {UsernameLengthMessage}
    ensures UsernameErrors(Some("useruseruseruseruseruseruseruseruseruseruseruseruser")) == {UsernameLengthMessage}
    ensures UsernameErrors(Some("user")) == {}
  {
    assert !IsWhiteSpace("u"[0]);
    var long := "useruseruseruseruseruseruseruseruseruseruseruseruser";
    assert |long| == 52 && long[51] == 'r';
    assert !IsWhiteSpace("user"[0]);
  }
}
