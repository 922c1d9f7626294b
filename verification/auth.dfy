/** Authentication: signup stores a hashed password, signin checks the
    credentials and issues a signed token, and token validation turns the
    token's payload into the caller's identity. bcrypt and the JWT library
    are opaque: the model receives them as functions it knows nothing about. */
module Auth {
  import opened Outcomes
  import opened Store

  const CredentialsTaken: string := "Credentials taken"
  const CredentialsIncorrect: string := "Credentials incorrect"

  /** The claims `signToken` signs. */
  datatype Payload = Payload(sub: nat, email: string, role: Role)

  /** The cryptographic collaborators: `bcrypt.hash(password, salt)`,
      `bcrypt.compare(password, hash)`, `jwtService.signAsync(payload)` and
      the signature and expiry check passport-jwt applies to a bearer token. */
  datatype Crypto = Crypto(
    hash: (string, string) -> string,
    compare: (string, string) -> bool,
    sign: Payload -> string,
    verify: string -> Option<Payload>)

  datatype Credentials = Credentials(email: string, password: string)

  /** A user record with its `password` field removed. */
  datatype PublicUser = PublicUser(id: nat, email: string, role: Role)

  datatype AccessToken = AccessToken(access_token: string)

  /** The caller identity `JwtStrategy.validate` attaches to a request. */
  datatype Identity = Identity(userId: nat, email: string, role: Role)

  /** The claims that name an identity: `sub` carries the user id. */
  function ClaimsOf(who: Identity): Payload {
    Payload(who.userId, who.email, who.role)
  }

  function WithoutPassword(u: User): PublicUser {
    PublicUser(u.id, u.email, u.role)
  }

  /** Puts a password field back on a public record. */
  function WithPassword(u: PublicUser, password: string): User {
    User(u.id, u.email, password, u.role)
  }

  /** `user.create`: the insert fails on an email already taken, and on any
      other database fault the environment injects through `fault`. New
      users get the schema's default role. */
  function CreateUser(s: Store, email: string, password: string, fault: Option<string>): Step<User> {
    match fault
    case Some(code) => Step(Failure(Database(code)), s)
    case None =>
      if email in s.users then Step(Failure(Database(UniqueViolation)), s)
      else
        var u := User(s.nextUserId, email, password, Role.Member);
        Step(Success(u), s.(users := s.users[email := u], nextUserId := s.nextUserId + 1))
  }

  /** The catch clause of `signup`: a unique-constraint failure becomes
      Forbidden, anything else is rethrown as it is. */
  function SignupError(e: Error): Error {
    if e.Database? && e.code == UniqueViolation then Forbidden(CredentialsTaken) else e
  }

  function SignUp(s: Store, crypto: Crypto, dto: Credentials, salt: string, fault: Option<string>): (r: Step<PublicUser>)
    ensures r.result.Failure? ==> r.state == s
    ensures r.result.Success? <==> fault.None? && dto.email !in s.users
    ensures fault.None? && dto.email in s.users ==> r.result == Failure(Forbidden(CredentialsTaken))
    ensures fault == Some(UniqueViolation) ==> r.result == Failure(Forbidden(CredentialsTaken))
    ensures fault.Some? && fault.value != UniqueViolation ==> r.result == Failure(Database(fault.value))
    ensures r.result.Success? ==>
              && r.state.users.Keys == s.users.Keys + {dto.email}
              && (forall e | e in s.users :: r.state.users[e] == s.users[e])
              && r.state.users[dto.email].password == crypto.hash(dto.password, salt)
              && r.state.users[dto.email].role == Role.Member
              && r.result.value == WithoutPassword(r.state.users[dto.email])
    ensures OnlyUserTableChanged(s, r.state)
  {
    var created := CreateUser(s, dto.email, crypto.hash(dto.password, salt), fault);
    match created.result
    case Success(u) => Step(Success(WithoutPassword(u)), created.state)
    case Failure(e) => Step(Failure(SignupError(e)), created.state)
  }

  /** `signToken`: signs the claims of the user and wraps the token. */
  function SignToken(crypto: Crypto, userId: nat, email: string, role: Role): (r: AccessToken)
    ensures r.access_token == crypto.sign(ClaimsOf(Identity(userId, email, role)))
  {
    AccessToken(crypto.sign(Payload(userId, email, role)))
  }

  function SignIn(s: Store, crypto: Crypto, dto: Credentials): (r: Result<AccessToken>)
    ensures r.Success? <==> dto.email in s.users && crypto.compare(dto.password, s.users[dto.email].password)
    ensures r.Failure? ==> r.error == Forbidden(CredentialsIncorrect)
    ensures r.Success? ==>
              var u := s.users[dto.email];
              r.value == SignToken(crypto, u.id, u.email, u.role)
  {
    if dto.email !in s.users then Failure(Forbidden(CredentialsIncorrect))
    else
      var u := s.users[dto.email];
      if !crypto.compare(dto.password, u.password) then Failure(Forbidden(CredentialsIncorrect))
      else Success(SignToken(crypto, u.id, u.email, u.role))
  }

  /** `JwtStrategy.validate`: the identity whose claims the payload is. */
  function Validate(payload: Payload): (r: Identity)
    ensures ClaimsOf(r) == payload
  {
    Identity(payload.sub, payload.email, payload.role)
  }

  /** A bearer token as the guard sees it: verified, then validated. */
  function Authenticate(crypto: Crypto, token: string): (r: Option<Identity>)
    ensures r.Some? <==> crypto.verify(token).Some?
    ensures r.Some? ==> ClaimsOf(r.value) == crypto.verify(token).value
  {
    match crypto.verify(token)
    case None => None
    case Some(p) => Some(Validate(p))
  }

  // ---------------------------------------------------------------------------
  // Properties

  /** `validate` and the claims of an identity are inverse: no claim is
      lost or invented on the way from payload to identity and back. */
  lemma ValidateInvertsClaims(payload: Payload, who: Identity)
    ensures Validate(ClaimsOf(who)) == who
    ensures ClaimsOf(Validate(payload)) == payload
    ensures Validate(payload) == who <==> payload == ClaimsOf(who)
  {
  }

  /** Stripping the password keeps every other field: putting the password
      back yields the stored record, and two records that differ only in
      their password strip to the same value. */
  lemma WithoutPasswordKeepsOtherFields(u: User, v: User)
    ensures WithPassword(WithoutPassword(u), u.password) == u
    ensures WithoutPassword(u) == WithoutPassword(v) <==> u == v.(password := u.password)
  {
  }

  /** An unknown email and a wrong password are rejected with one and the
      same error, so the response does not reveal which check failed. */
  lemma SignInRejectionsAlike(s: Store, crypto: Crypto, unknown: Credentials, wrong: Credentials)
    requires unknown.email !in s.users
    requires wrong.email in s.users && !crypto.compare(wrong.password, s.users[wrong.email].password)
    ensures SignIn(s, crypto, unknown).Failure?
    ensures SignIn(s, crypto, unknown) == SignIn(s, crypto, wrong)
  {
  }

  /** Signing up twice with one email: the second attempt is Forbidden
      "Credentials taken" and stores nothing. */
  lemma SignUpTwiceFails(s: Store, crypto: Crypto, dto: Credentials, salt: string, salt': string, password': string)
    requires SignUp(s, crypto, dto, salt, None).result.Success?
    ensures var t := SignUp(s, crypto, dto, salt, None).state;
            SignUp(t, crypto, Credentials(dto.email, password'), salt', None) == Step(Failure(Forbidden(CredentialsTaken)), t)
  {
  }

  /** If bcrypt accepts a password against its own hash, a fresh signup can
      sign in at once, and receives the token of the new member. */
  lemma SignInAfterSignUp(s: Store, crypto: Crypto, dto: Credentials, salt: string)
    requires SignUp(s, crypto, dto, salt, None).result.Success?
    requires crypto.compare(dto.password, crypto.hash(dto.password, salt))
    ensures var signed := SignUp(s, crypto, dto, salt, None);
            SignIn(signed.state, crypto, dto)
              == Success(SignToken(crypto, signed.result.value.id, dto.email, Role.Member))
  {
  }

  /** When the JWT library verifies what it signed, the token `signToken`
      issues authenticates as exactly the identity it was issued for. */
  lemma SignedTokenAuthenticates(crypto: Crypto, userId: nat, email: string, role: Role)
    requires crypto.verify(crypto.sign(Payload(userId, email, role))) == Some(Payload(userId, email, role))
    ensures Authenticate(crypto, SignToken(crypto, userId, email, role).access_token) == Some(Identity(userId, email, role))
  {
  }

  /** The same, end to end: the token a successful signin returns
      authenticates as the stored user found by email. */
  lemma SignInTokenAuthenticates(s: Store, crypto: Crypto, dto: Credentials)
    requires SignIn(s, crypto, dto).Success?
    requires forall p :: crypto.verify(crypto.sign(p)) == Some(p)
    ensures var u := s.users[dto.email];
            Authenticate(crypto, SignIn(s, crypto, dto).value.access_token) == Some(Identity(u.id, u.email, u.role))
  {
  }

  lemma SignUpPreservesValid(s: Store, crypto: Crypto, dto: Credentials, salt: string, fault: Option<string>)
    requires Valid(s)
    ensures Valid(SignUp(s, crypto, dto, salt, fault).state)
  {
  }
}
