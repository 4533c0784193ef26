/**
 * `AuthService` (src/infra/modules/auth/auth.service.ts): registration and
 * login over the user table. Errors the source throws are returned as
 * `AuthError` values.
 */
module Auth {
  import opened Wrappers
  import opened Db
  import opened AuthSchemas
  import Password

  const EmailInUseMessage := "Email is already in use"
  const InvalidCredentialsMessage := "Email or password is incorrect"

  datatype AuthError =
    | EmailInUse                                 // thrown as EmailInUseMessage
    | InvalidCredentials                         // thrown as InvalidCredentialsMessage
    | CryptoFailure(cryptoError: Password.CryptoError) // thrown by the crypto library
    | StoreFailure(storeError: StoreError)       // thrown by the database

  /** The message of the errors the service throws itself; library errors carry their own. */
  function ServiceMessage(e: AuthError): (m: Option<string>)
    ensures m.Some? <==> e == EmailInUse || e == InvalidCredentials
    ensures e == EmailInUse ==> m == Some("Email is already in use")
    ensures e == InvalidCredentials ==> m == Some("Email or password is incorrect")
  {
    match e
    case EmailInUse => Some(EmailInUseMessage)
    case InvalidCredentials => Some(InvalidCredentialsMessage)
    case _ => None
  }

  /**
   * `register(data)`: the user it inserts, or why it throws. `id`, `salt`,
   * `iv` and `now` are what the database and the crypto library draw.
   */
  function RegisterOutcome(users: map<string, User>, v: Password.Vault, data: RegisterData,
                           id: Id, salt: seq<Password.byte>, iv: Password.Iv, now: int): (r: Result<User, AuthError>)
    ensures data.email in users ==> r == Failure(EmailInUse)
    ensures r.Success? <==> data.email !in users && |v.key| == Password.KeyLen && !IdTaken(users, id)
    ensures r.Success? ==> && r.value.id == id && r.value.email == data.email && r.value.name == data.name
                           && r.value.createdAt == now
                           && Password.HashAndEncryptPassword(v, salt, iv, data.password) == Success(r.value.password)
  {
    if data.email in users then Failure(EmailInUse)
    else
      match Password.HashAndEncryptPassword(v, salt, iv, data.password)
      case Failure(e) => Failure(CryptoFailure(e))
      case Success(secret) =>
        if IdTaken(users, id) then Failure(StoreFailure(UniqueConstraintFailed))
        else Success(User(id, data.email, data.name, secret, now))
  }

  /** `login(data)`: the stored user, or why it throws. */
  function LoginOutcome(users: map<string, User>, v: Password.Vault, data: LoginData): (r: Result<User, AuthError>)
    ensures data.email !in users ==> r == Failure(InvalidCredentials)
    ensures r.Success? ==> data.email in users && r.value == users[data.email]
    ensures r.Failure? ==> r.error == InvalidCredentials || r.error.CryptoFailure?
    ensures r.Success? <==> data.email in users
                            && Password.ComparePassword(v, data.password, Some(users[data.email].password)) == Success(true)
  {
    if data.email !in users then Failure(InvalidCredentials)
    else
      var user := users[data.email];
      match Password.ComparePassword(v, data.password, Some(user.password))
      case Failure(e) => Failure(CryptoFailure(e))
      case Success(valid) => if valid then Success(user) else Failure(InvalidCredentials)
  }

  /** A successful registration keeps the table well formed. */
  lemma RegisterKeepsTableWellFormed(users: map<string, User>, v: Password.Vault, data: RegisterData,
                                     id: Id, salt: seq<Password.byte>, iv: Password.Iv, now: int)
    requires UsersWellFormed(users)
    requires RegisterOutcome(users, v, data, id, salt, iv, now).Success?
    ensures UsersWellFormed(users[data.email := RegisterOutcome(users, v, data, id, salt, iv, now).value])
  {
  }

  /** A freshly registered user can log in with the password it registered with. */
  lemma RegisterThenLogin(users: map<string, User>, v: Password.Vault, data: RegisterData,
                          id: Id, salt: seq<Password.byte>, iv: Password.Iv, now: int)
    requires Password.Lawful(v.primitives) && |v.key| == Password.KeyLen
    requires data.email !in users && !IdTaken(users, id)
    ensures var r := RegisterOutcome(users, v, data, id, salt, iv, now);
            && r.Success?
            && LoginOutcome(users[data.email := r.value], v, LoginData(data.email, data.password)) == Success(r.value)
  {
    Password.ProtectThenCompare(v, salt, iv, data.password);
  }

  /**
   * A password the stored secret rejects fails exactly like an unknown email,
   * so the answer does not tell which of the two was wrong.
   */
  lemma LoginFailuresAlike(users: map<string, User>, v: Password.Vault, email: string, password: string,
                           unknownEmail: string, anyPassword: string)
    requires email in users && Password.ComparePassword(v, password, Some(users[email].password)) == Success(false)
    requires unknownEmail !in users
    ensures LoginOutcome(users, v, LoginData(email, password))
            == LoginOutcome(users, v, LoginData(unknownEmail, anyPassword))
            == Failure(InvalidCredentials)
  {
  }

  /**
   * After registration, a login with another password fails with the same
   * error as a login with an unknown email (bcrypt collisions among digests
   * excluded as in `Password.OtherPasswordRejected`).
   */
  lemma RegisterThenWrongPassword(users: map<string, User>, v: Password.Vault, data: RegisterData,
                                  id: Id, salt: seq<Password.byte>, iv: Password.Iv, now: int,
                                  other: string, unknownEmail: string)
    requires Password.Lawful(v.primitives) && Password.BcryptBinding(v.primitives) && |v.key| == Password.KeyLen
    requires data.email !in users && !IdTaken(users, id)
    requires v.primitives.sha512(data.password)[..54] != v.primitives.sha512(other)[..54]
    requires unknownEmail !in users && unknownEmail != data.email
    ensures var users' := users[data.email := RegisterOutcome(users, v, data, id, salt, iv, now).value];
            && LoginOutcome(users', v, LoginData(data.email, other)) == Failure(InvalidCredentials)
            && LoginOutcome(users', v, LoginData(unknownEmail, data.password)) == Failure(InvalidCredentials)
  {
    Password.OtherPasswordRejected(v, salt, iv, data.password, other);
  }

  class AuthService {
    const vault: Password.Vault
    const users: UserTable

    constructor (vault: Password.Vault, users: UserTable)
      ensures this.vault == vault && this.users == users
    {
      this.vault := vault;
      this.users := users;
    }

    /** `register(data)`: inserts the user, or leaves the table as it was and reports why not. */
    method Register(data: RegisterData, id: Id, salt: seq<Password.byte>, iv: Password.Iv, now: int)
      returns (outcome: Outcome<AuthError>)
      requires users.Valid()
      modifies users
      ensures users.Valid()
      ensures var r := RegisterOutcome(old(users.byEmail), vault, data, id, salt, iv, now);
              && outcome == (if r.Success? then Pass else Fail(r.error))
              && users.byEmail == (if r.Success? then old(users.byEmail)[data.email := r.value] else old(users.byEmail))
    {
      if data.email in users.byEmail {
        return Fail(EmailInUse);
      }
      var secret := Password.HashAndEncryptPassword(vault, salt, iv, data.password);
      if secret.Failure? {
        return Fail(CryptoFailure(secret.error));
      }
      if IdTaken(users.byEmail, id) {
        return Fail(StoreFailure(UniqueConstraintFailed));
      }
      users.byEmail := users.byEmail[data.email := User(id, data.email, data.name, secret.value, now)];
      outcome := Pass;
    }

    /** `login(data)`: reads the table and never changes it. */
    method Login(data: LoginData) returns (r: Result<User, AuthError>)
      ensures r == LoginOutcome(users.byEmail, vault, data)
    {
      if data.email !in users.byEmail {
        return Failure(InvalidCredentials);
      }
      var user := users.byEmail[data.email];
      var valid := Password.ComparePassword(vault, data.password, Some(user.password));
      if valid.Failure? {
        return Failure(CryptoFailure(valid.error));
      }
      if !valid.value {
        return Failure(InvalidCredentials);
      }
      r := Success(user);
    }
  }
}
