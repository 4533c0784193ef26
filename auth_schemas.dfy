/**
 * The authentication schemas (src/infra/schemas/auth.ts). zod's email check
 * is the parameter `isEmail`.
 */
module AuthSchemas {
  import opened Wrappers
  import opened Json

  const PasswordMin: nat := 6

  /** The parsed body of `registerSchema`. */
  datatype RegisterData = RegisterData(name: string, email: string, password: string)

  /** The parsed body of `loginSchema`. */
  datatype LoginData = LoginData(email: string, password: string)

  /** `z.string().email()`. */
  predicate IsEmailField(isEmail: string -> bool, v: Value)
  {
    v.Str? && isEmail(v.s)
  }

  /** `registerSchema.parse(body)`. */
  function ParseRegister(isEmail: string -> bool, body: Value): (r: Option<RegisterData>)
    ensures r.Some? <==> && body.Obj?
                         && "name" in body.fields && body.fields["name"].Str?
                         && "email" in body.fields && IsEmailField(isEmail, body.fields["email"])
                         && "password" in body.fields && IsStringMin(body.fields["password"], PasswordMin)
    ensures r.Some? ==> r.value == RegisterData(body.fields["name"].s, body.fields["email"].s, body.fields["password"].s)
  {
    if && body.Obj?
       && "name" in body.fields && body.fields["name"].Str?
       && "email" in body.fields && IsEmailField(isEmail, body.fields["email"])
       && "password" in body.fields && IsStringMin(body.fields["password"], PasswordMin)
    then Some(RegisterData(body.fields["name"].s, body.fields["email"].s, body.fields["password"].s))
    else None
  }

  /** `loginSchema.parse(body)`: no length limit on the password. */
  function ParseLogin(isEmail: string -> bool, body: Value): (r: Option<LoginData>)
    ensures r.Some? <==> && body.Obj?
                         && "email" in body.fields && IsEmailField(isEmail, body.fields["email"])
                         && "password" in body.fields && body.fields["password"].Str?
    ensures r.Some? ==> r.value == LoginData(body.fields["email"].s, body.fields["password"].s)
  {
    if && body.Obj?
       && "email" in body.fields && IsEmailField(isEmail, body.fields["email"])
       && "password" in body.fields && body.fields["password"].Str?
    then Some(LoginData(body.fields["email"].s, body.fields["password"].s))
    else None
  }

  /** A register body as a client sends it. */
  function RegisterBody(d: RegisterData): Value
  {
    Obj(map["name" := Str(d.name), "email" := Str(d.email), "password" := Str(d.password)])
  }

  /** A login body as a client sends it. */
  function LoginBody(d: LoginData): Value
  {
    Obj(map["email" := Str(d.email), "password" := Str(d.password)])
  }

  /** A register body is accepted, and parses back to itself, exactly when the email passes and the password has six code units or more; the name may be anything, even empty. */
  lemma RegisterBodyRoundTrip(isEmail: string -> bool, d: RegisterData)
    ensures ParseRegister(isEmail, RegisterBody(d))
            == (if isEmail(d.email) && IsStringMin(Str(d.password), PasswordMin) then Some(d) else None)
  {
  }

  /** A login body is accepted, and parses back to itself, exactly when the email passes, whatever the password. */
  lemma LoginBodyRoundTrip(isEmail: string -> bool, d: LoginData)
    ensures ParseLogin(isEmail, LoginBody(d)) == (if isEmail(d.email) then Some(d) else None)
  {
  }

  /** A `null` email is rejected by both schemas. */
  lemma NullEmailRejected(isEmail: string -> bool, body: Value)
    requires body.Obj? && "email" in body.fields && body.fields["email"] == Null
    ensures ParseRegister(isEmail, body) == None && ParseLogin(isEmail, body) == None
  {
  }

  /** `loginResponseSchema`: `{token: string}`. */
  predicate MatchesLoginResponse(v: Value)
  {
    v.Obj? && "token" in v.fields && v.fields["token"].Str?
  }

  /** The login response: the token and nothing else. */
  function LoginResponse(token: string): (v: Value)
    ensures MatchesLoginResponse(v) && v.fields.Keys == {"token"} && v.fields["token"].s == token
  {
    Obj(map["token" := Str(token)])
  }
}
