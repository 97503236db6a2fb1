/** `AuthController` (controllers/auth.js): registration, login, issuing a
    password-recovery code and resetting the password, each a pure transition
    from the user store to a reply and the new store. */
module Auth {
  import opened Wrappers
  import opened Strings
  import opened RandomCode
  import opened Model

  /** A request-body field; `None` is an absent field. */
  type Field = Option<string>

  /** `paramsNotValid` for one field: absent or empty. */
  predicate Missing(f: Field) {
    f.None? || f.value == ""
  }

  datatype SignUp = SignUp(name: Field, email: Field, password: Field, role: Field)
  datatype Credentials = Credentials(email: Field, password: Field)
  datatype Reset = Reset(email: Field, password: Field, token: Field)

  /** The `handleError` statuses; PRECONDITION_FAILED has its own reply. */
  datatype Status = BadRequest | NotFound | Unauthorized

  /** `handleSuccess(OK, data)`, `handleFail(PRECONDITION_FAILED, ...)` or
      `handleError(status, message)`. */
  datatype Reply<T> = Ok(data: T) | ParamsMissing | Refused(status: Status, message: string)

  /** A reply together with the user store after the request. */
  datatype Step<T> = Step(reply: Reply<T>, users: Users)

  const EmailExists := "email already exists"
  const NoInstitution := "Institution domain does not exist exists"
  const UserNotFound := "User not found here"
  const WrongPassword := "Wrong password"
  const WrongToken := "Wrong Token"

  /** `InstitutionModel.findOne({ domain: email.split('@')[1] })`. */
  function FindInstitution(insts: Directory, email: string): (inst: Option<Institution>)
    ensures inst.Some? <==> DomainOf(email).Some? && DomainOf(email).value in insts
    ensures inst.Some? ==> inst.value == insts[DomainOf(email).value]
    ensures DirectoryWellFormed(insts) && inst.Some? ==> inst.value.domain == DomainOf(email).value
  {
    match DomainOf(email)
    case None => None
    case Some(d) => if d in insts then Some(insts[d]) else None
  }

  /** The fields `addUser` checks: e-mail, name, e-mail again and password. */
  predicate SignUpIncomplete(req: SignUp) {
    Missing(req.email) || Missing(req.name) || Missing(req.email) || Missing(req.password)
  }

  /** `addUser`: registers a user whose e-mail is new and whose domain names a
      known institution. `newId` is the id given to the new document. The
      reply is the copy taken before saving, modelled as an exact copy, so it
      still holds the password as given; the stored record holds its hash. */
  function AddUser(c: Crypto, users: Users, insts: Directory, req: SignUp, newId: UserId): (r: Step<User>)
    ensures r.reply.ParamsMissing? <==> Missing(req.email) || Missing(req.name) || Missing(req.password)
    ensures !r.reply.Ok? ==> r.users == users
    ensures !SignUpIncomplete(req) && req.email.value in users ==>
              r.reply == Refused(BadRequest, EmailExists)
    ensures !SignUpIncomplete(req) && req.email.value !in users && FindInstitution(insts, req.email.value).None? ==>
              r.reply == Refused(BadRequest, NoInstitution)
    ensures r.reply.Ok? <==>
              !SignUpIncomplete(req) && req.email.value !in users && FindInstitution(insts, req.email.value).Some?
    ensures r.reply.Ok? ==> r.users.Keys == users.Keys + {req.email.value}
    ensures r.reply.Ok? ==>
              var e := req.email.value;
              var u := r.users[e];
              && r.reply.data == u.(password := req.password.value)
              && u.id == newId && u.email == e && u.name == req.name.value && u.role == req.role
              && u.institution == insts[DomainOf(e).value].id
              && u.password == c.encrypt(req.password.value)
              && u.recoverToken.None?
              && u.token == c.createToken(e, newId, None)
    ensures r.reply.Ok? && DirectoryWellFormed(insts) ==>
              var d := DomainOf(req.email.value).value;
              d in insts && insts[d].domain == d && r.users[req.email.value].institution == insts[d].id
    ensures forall e :: e in users ==> e in r.users && r.users[e] == users[e]
  {
    if SignUpIncomplete(req) then Step(ParamsMissing, users)
    else
      var email := req.email.value;
      if email in users then Step(Refused(BadRequest, EmailExists), users)
      else match FindInstitution(insts, email)
        case None => Step(Refused(BadRequest, NoInstitution), users)
        case Some(inst) =>
          var unsaved := User(newId, req.name.value, email, req.role, None, inst.id,
                              req.password.value, None, c.createToken(email, newId, None));
          Step(Ok(unsaved), users[email := unsaved.(password := c.encrypt(req.password.value))])
  }

  /** `login`: checks the password of the user with that e-mail and, on a
      match, stores and returns a freshly signed token. The reply is a copy
      of the updated record, modelled as an exact copy. */
  function Login(c: Crypto, users: Users, req: Credentials): (r: Step<User>)
    ensures r.reply.ParamsMissing? <==> Missing(req.email) || Missing(req.password)
    ensures !r.reply.Ok? ==> r.users == users
    ensures !r.reply.ParamsMissing? && req.email.value !in users ==>
              r.reply == Refused(NotFound, UserNotFound)
    ensures !r.reply.ParamsMissing? && req.email.value in users &&
            !ValidatePassword(c, users[req.email.value], req.password.value) ==>
              r.reply == Refused(Unauthorized, WrongPassword)
    ensures r.reply.Ok? <==>
              && !Missing(req.email) && !Missing(req.password)
              && req.email.value in users
              && ValidatePassword(c, users[req.email.value], req.password.value)
    ensures r.reply.Ok? ==>
              var e := req.email.value;
              && r.users.Keys == users.Keys
              && r.users[e].token == c.createToken(e, users[e].id, None)
              && r.users[e].(token := users[e].token) == users[e]
              && r.reply.data == r.users[e]
    ensures forall e :: e in users && Some(e) != req.email ==> e in r.users && r.users[e] == users[e]
  {
    if Missing(req.email) || Missing(req.password) then Step(ParamsMissing, users)
    else
      var email := req.email.value;
      if email !in users then Step(Refused(NotFound, UserNotFound), users)
      else
        var user := users[email];
        if !ValidatePassword(c, user, req.password.value) then Step(Refused(Unauthorized, WrongPassword), users)
        else
          var user' := user.(token := c.createToken(email, user.id, None));
          Step(Ok(user'), users[email := user'])
  }

  /** `sendToken`: draws a five-digit recovery code, stores its hash on the
      user and returns the plaintext code. */
  function SendToken(c: Crypto, users: Users, email: Field, rand: nat -> nat): (r: Step<string>)
    ensures r.reply.ParamsMissing? <==> Missing(email)
    ensures !r.reply.Ok? ==> r.users == users
    ensures !Missing(email) && email.value !in users ==> r.reply == Refused(NotFound, UserNotFound)
    ensures r.reply.Ok? <==> !Missing(email) && email.value in users
    ensures r.reply.Ok? ==>
              var e := email.value;
              && IsRecoveryCode(r.reply.data)
              && r.users.Keys == users.Keys
              && r.users[e].recoverToken == Some(c.encrypt(r.reply.data))
              && r.users[e].(recoverToken := users[e].recoverToken) == users[e]
    ensures Sound(c) && r.reply.Ok? ==>
              forall code :: ValidateToken(c, r.users[email.value], code) <==> code == r.reply.data
    ensures forall e :: e in users && Some(e) != email ==> e in r.users && r.users[e] == users[e]
  {
    if Missing(email) then Step(ParamsMissing, users)
    else if email.value !in users then Step(Refused(NotFound, UserNotFound), users)
    else
      var code := RecoveryCode(rand);
      var user := users[email.value];
      Step(Ok(code), users[email.value := user.(recoverToken := Some(c.encrypt(code)))])
  }

  /** `resetPass`: checks the recovery code and, on a match, replaces the
      password hash and the session token. The recovery hash is kept and the
      reply carries no data (`null`, modelled as `()`). */
  function ResetPass(c: Crypto, users: Users, req: Reset): (r: Step<()>)
    ensures r.reply.ParamsMissing? <==> Missing(req.email) || Missing(req.password) || Missing(req.token)
    ensures !r.reply.Ok? ==> r.users == users
    ensures !r.reply.ParamsMissing? && req.email.value !in users ==>
              r.reply == Refused(NotFound, UserNotFound)
    ensures !r.reply.ParamsMissing? && req.email.value in users &&
            !ValidateToken(c, users[req.email.value], req.token.value) ==>
              r.reply == Refused(Unauthorized, WrongToken)
    ensures r.reply.Ok? <==>
              && !Missing(req.email) && !Missing(req.password) && !Missing(req.token)
              && req.email.value in users
              && ValidateToken(c, users[req.email.value], req.token.value)
    ensures r.reply.Ok? ==>
              var e := req.email.value;
              var u := users[e];
              && r.users.Keys == users.Keys
              && r.users[e].password == c.encrypt(req.password.value)
              && r.users[e].token == c.createToken(e, u.id, u.kind)
              && r.users[e].recoverToken == u.recoverToken
              && r.users[e].(password := u.password, token := u.token) == u
    ensures forall e :: e in users && Some(e) != req.email ==> e in r.users && r.users[e] == users[e]
  {
    if Missing(req.email) || Missing(req.password) || Missing(req.token) then Step(ParamsMissing, users)
    else
      var email := req.email.value;
      if email !in users then Step(Refused(NotFound, UserNotFound), users)
      else
        var user := users[email];
        if !ValidateToken(c, user, req.token.value) then Step(Refused(Unauthorized, WrongToken), users)
        else
          var user' := user.(password := c.encrypt(req.password.value),
                             token := c.createToken(email, user.id, user.kind));
          Step(Ok(()), users[email := user'])
  }
}
