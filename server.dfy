/**
 * The `authenticate` hook of the HTTP server (src/http/server.ts): decode the
 * bearer token, check its payload, look the user up, then either attach the
 * user to the request or answer 401 with a message.
 *
 * Decoding is the parameter `jwt.decode`, which turns the Authorization
 * header into an error message or a payload. It only decodes: nothing here
 * checks a signature or an expiry time.
 */
module Server {
  import opened Wrappers
  import opened Db
  import opened AuthSchemas
  import Auth
  import Password

  const Unauthorized: nat := 401
  const InvalidTokenMessage := "Invalid token"

  /** The token payload, `{id: string}`; `id` is `None` when the claim is missing. */
  datatype Payload = Payload(id: Option<Id>)

  /** What decoding a header gives: the decoder's error message, or a payload that may be empty. */
  datatype Decoding = DecodeFailed(message: string) | Decoded(payload: Option<Payload>)

  /** The token library: signing at login and decoding in the hook. */
  datatype JwtCodec = JwtCodec(sign: Payload -> string, decode: Option<string> -> Decoding)

  function BearerHeader(token: string): string
  {
    "Bearer " + token
  }

  /** A token the library signed decodes back to its payload. */
  ghost predicate DecodesOwnTokens(jwt: JwtCodec)
  {
    forall pl :: jwt.decode(Some(BearerHeader(jwt.sign(pl)))) == Decoded(Some(pl))
  }

  /** `prisma.user.findUnique({where: {id}})`. */
  function UserWithId(users: map<string, User>, id: Id): (r: Option<User>)
    requires UsersWellFormed(users)
    ensures r.Some? <==> IdTaken(users, id)
    ensures r.Some? ==> r.value.email in users && users[r.value.email] == r.value && r.value.id == id
  {
    if IdTaken(users, id) then Some(var e :| e in users && users[e].id == id; users[e]) else None
  }

  datatype GateOutcome = Authenticated(user: User) | Rejected(status: nat, message: string)

  /**
   * The decision the hook takes. A payload without an id makes the user
   * lookup throw; `lookupError` is the message the database gives then.
   */
  function Gate(decoded: Decoding, users: map<string, User>, lookupError: string): (r: GateOutcome)
    requires UsersWellFormed(users)
    ensures r.Rejected? ==> r.status == Unauthorized
    ensures decoded.DecodeFailed? ==> r == Rejected(Unauthorized, decoded.message)
    ensures decoded == Decoded(None) ==> r == Rejected(Unauthorized, InvalidTokenMessage)
    ensures r.Authenticated? <==> && decoded.Decoded? && decoded.payload.Some? && decoded.payload.value.id.Some?
                                  && IdTaken(users, decoded.payload.value.id.value)
    ensures r.Authenticated? ==> && r.user.id == decoded.payload.value.id.value
                                 && r.user.email in users && users[r.user.email] == r.user
  {
    match decoded
    case DecodeFailed(message) => Rejected(Unauthorized, message)
    case Decoded(payload) =>
      if payload.None? then Rejected(Unauthorized, InvalidTokenMessage)
      else if payload.value.id.None? then Rejected(Unauthorized, lookupError)
      else
        match UserWithId(users, payload.value.id.value)
        case None => Rejected(Unauthorized, InvalidTokenMessage)
        case Some(user) => Authenticated(user)
  }

  /** A payload naming no stored user is refused with the same answer as an empty payload. */
  lemma UnknownUserLikeEmptyPayload(users: map<string, User>, id: Id, lookupError: string)
    requires UsersWellFormed(users)
    requires !IdTaken(users, id)
    ensures Gate(Decoded(Some(Payload(Some(id)))), users, lookupError)
            == Gate(Decoded(None), users, lookupError)
            == Rejected(Unauthorized, InvalidTokenMessage)
  {
  }

  /** The token issued at login, `{id: user.id}`, authenticates as that user while it is stored. */
  lemma LoginTokenAuthenticates(jwt: JwtCodec, users: map<string, User>, user: User, lookupError: string)
    requires UsersWellFormed(users) && DecodesOwnTokens(jwt)
    requires user.email in users && users[user.email] == user
    ensures Gate(jwt.decode(Some(BearerHeader(jwt.sign(Payload(Some(user.id)))))), users, lookupError)
            == Authenticated(user)
  {
  }

  /**
   * Register, log in, present the token: the hook attaches the user that
   * registration stored.
   */
  lemma RegisterLoginAuthenticate(jwt: JwtCodec, users: map<string, User>, v: Password.Vault, data: RegisterData,
                                  id: Id, salt: seq<Password.byte>, iv: Password.Iv, now: int, lookupError: string)
    requires UsersWellFormed(users) && DecodesOwnTokens(jwt)
    requires Password.Lawful(v.primitives) && |v.key| == Password.KeyLen
    requires data.email !in users && !IdTaken(users, id)
    ensures var registered := Auth.RegisterOutcome(users, v, data, id, salt, iv, now);
            var users' := users[data.email := registered.value];
            var login := Auth.LoginOutcome(users', v, LoginData(data.email, data.password));
            && UsersWellFormed(users')
            && login == Success(registered.value)
            && Gate(jwt.decode(Some(BearerHeader(jwt.sign(Payload(Some(login.value.id)))))), users', lookupError)
               == Authenticated(registered.value)
  {
    Auth.RegisterThenLogin(users, v, data, id, salt, iv, now);
    var registered := Auth.RegisterOutcome(users, v, data, id, salt, iv, now);
    Auth.RegisterKeepsTableWellFormed(users, v, data, id, salt, iv, now);
    LoginTokenAuthenticates(jwt, users[data.email := registered.value], registered.value, lookupError);
  }

  class Request {
    /** The Authorization header, if any. */
    var authorization: Option<string>
    /** `request.user`: set only by a successful `Authenticate`. */
    var user: Option<User>

    constructor (authorization: Option<string>)
      ensures this.authorization == authorization && user == None
    {
      this.authorization := authorization;
      user := None;
    }
  }

  class Reply {
    var status: nat
    /** The `message` of the body sent, if one was sent. */
    var message: Option<string>

    constructor ()
      ensures status == 200 && message == None
    {
      status := 200;
      message := None;
    }
  }

  /** The `authenticate` decorator: only reads the user table. */
  method Authenticate(jwt: JwtCodec, users: UserTable, lookupError: string, request: Request, reply: Reply)
    requires users.Valid()
    modifies request`user, reply
    ensures match Gate(jwt.decode(request.authorization), users.byEmail, lookupError)
            case Authenticated(user) =>
              request.user == Some(user) && reply.status == old(reply.status) && reply.message == old(reply.message)
            case Rejected(status, message) =>
              request.user == old(request.user) && reply.status == status && reply.message == Some(message)
  {
    var decoded := jwt.decode(request.authorization);
    if decoded.DecodeFailed? {
      reply.status, reply.message := Unauthorized, Some(decoded.message);
    } else if decoded.payload.None? {
      reply.status, reply.message := Unauthorized, Some(InvalidTokenMessage);
    } else if decoded.payload.value.id.None? {
      reply.status, reply.message := Unauthorized, Some(lookupError);
    } else {
      var id := decoded.payload.value.id.value;
      if IdTaken(users.byEmail, id) {
        var email :| email in users.byEmail && users.byEmail[email].id == id;
        request.user := Some(users.byEmail[email]);
      } else {
        reply.status, reply.message := Unauthorized, Some(InvalidTokenMessage);
      }
    }
  }
}
