/** The request bodies of `POST /auth/login` and `POST /auth/register`, and their validation rules. */
module AuthDto {
  import opened Common
  import opened Validation

  /** Minimum lengths declared with `@MinLength`. */
  const PasswordMinLength: nat := 3
  const UsernameMinLength: nat := 1

  datatype LoginDto = LoginDto(email: string, password: string)

  datatype RegisterDto = RegisterDto(email: string, username: string, password: string)

  const LoginKeys: set<string> := {"email", "password"}
  const RegisterKeys: set<string> := {"email", "username", "password"}

  /** The decorators of `LoginDto`; `isEmail` stands for the library's e-mail format check. */
  predicate ValidLoginBody(body: Body, isEmail: string -> bool)
  {
    && Required(body, "email", v => IsFormatted(v, isEmail))
    && Required(body, "password", v => IsString(v) && MinLength(v, PasswordMinLength))
  }

  /** The decorators of `RegisterDto`. */
  predicate ValidRegisterBody(body: Body, isEmail: string -> bool)
  {
    && Required(body, "email", v => IsFormatted(v, isEmail))
    && Required(body, "username", v => IsString(v) && MinLength(v, UsernameMinLength))
    && Required(body, "password", v => IsString(v) && MinLength(v, PasswordMinLength))
  }

  /** The login rules stated on a typed DTO. */
  predicate ValidLogin(dto: LoginDto, isEmail: string -> bool)
  {
    isEmail(dto.email) && |dto.password| >= PasswordMinLength
  }

  /** The registration rules stated on a typed DTO. */
  predicate ValidRegister(dto: RegisterDto, isEmail: string -> bool)
  {
    isEmail(dto.email) && |dto.username| >= UsernameMinLength && |dto.password| >= PasswordMinLength
  }

  function LoginToBody(dto: LoginDto): Body
  {
    map["email" := StrJson(dto.email), "password" := StrJson(dto.password)]
  }

  function RegisterToBody(dto: RegisterDto): Body
  {
    map["email" := StrJson(dto.email), "username" := StrJson(dto.username), "password" := StrJson(dto.password)]
  }

  /**
   * The ValidationPipe on a login body: it passes exactly when both
   * decorators hold, and the DTO it produces obeys the typed rules and is
   * what the client sent, minus undeclared properties.
   */
  function ValidateLogin(body: Body, isEmail: string -> bool): (r: Option<LoginDto>)
    ensures r.Some? <==> ValidLoginBody(body, isEmail)
    ensures r.Some? ==> ValidLogin(r.value, isEmail)
    ensures r.Some? ==> LoginToBody(r.value) == Whitelist(body, LoginKeys)
  {
    if ValidLoginBody(body, isEmail) then
      var dto := LoginDto(StrOf(body["email"]), StrOf(body["password"]));
      assert LoginToBody(dto).Keys == Whitelist(body, LoginKeys).Keys;
      Some(dto)
    else
      None
  }

  /** The ValidationPipe on a registration body. */
  function ValidateRegister(body: Body, isEmail: string -> bool): (r: Option<RegisterDto>)
    ensures r.Some? <==> ValidRegisterBody(body, isEmail)
    ensures r.Some? ==> ValidRegister(r.value, isEmail)
    ensures r.Some? ==> RegisterToBody(r.value) == Whitelist(body, RegisterKeys)
  {
    if ValidRegisterBody(body, isEmail) then
      var dto := RegisterDto(StrOf(body["email"]), StrOf(body["username"]), StrOf(body["password"]));
      assert RegisterToBody(dto).Keys == Whitelist(body, RegisterKeys).Keys;
      Some(dto)
    else
      None
  }

  /** Validating what a client sends for a login DTO gives it back exactly when it obeys the rules. */
  lemma ValidateLoginToBody(dto: LoginDto, isEmail: string -> bool)
    ensures ValidateLogin(LoginToBody(dto), isEmail) == if ValidLogin(dto, isEmail) then Some(dto) else None
  {
  }

  /** Validating what a client sends for a registration DTO gives it back exactly when it obeys the rules. */
  lemma ValidateRegisterToBody(dto: RegisterDto, isEmail: string -> bool)
    ensures ValidateRegister(RegisterToBody(dto), isEmail) == if ValidRegister(dto, isEmail) then Some(dto) else None
  {
  }
}
