/** Properties that relate several requests: the store invariant every
    operation keeps, and the register / recover / reset / login round trips. */
module Lifecycle {
  import opened Wrappers
  import opened Strings
  import opened Model
  import opened Auth

  /** Registration keeps the store well formed when the id given to the new
      document is unused, and changes no existing user. */
  lemma AddUserKeepsStore(c: Crypto, users: Users, insts: Directory, req: SignUp, newId: UserId)
    requires WellFormed(users)
    requires forall e :: e in users ==> users[e].id != newId
    ensures WellFormed(AddUser(c, users, insts, req, newId).users)
    ensures Evolves(users, AddUser(c, users, insts, req, newId).users)
  {
  }

  lemma LoginKeepsStore(c: Crypto, users: Users, req: Credentials)
    requires WellFormed(users)
    ensures WellFormed(Login(c, users, req).users)
    ensures Evolves(users, Login(c, users, req).users)
  {
  }

  lemma SendTokenKeepsStore(c: Crypto, users: Users, email: Field, rand: nat -> nat)
    requires WellFormed(users)
    ensures WellFormed(SendToken(c, users, email, rand).users)
    ensures Evolves(users, SendToken(c, users, email, rand).users)
  {
  }

  lemma ResetPassKeepsStore(c: Crypto, users: Users, req: Reset)
    requires WellFormed(users)
    ensures WellFormed(ResetPass(c, users, req).users)
    ensures Evolves(users, ResetPass(c, users, req).users)
  {
  }

  /** A user who has just registered can log in with the same password, and
      with no other. */
  lemma RegisterThenLogin(c: Crypto, users: Users, insts: Directory, req: SignUp, newId: UserId, password: string)
    requires Sound(c)
    requires AddUser(c, users, insts, req, newId).reply.Ok?
    requires password != ""
    ensures var s := AddUser(c, users, insts, req, newId).users;
            var r := Login(c, s, Credentials(req.email, Some(password)));
            (r.reply.Ok? <==> password == req.password.value)
            && (!r.reply.Ok? ==> r.reply == Refused(Unauthorized, WrongPassword))
  {
  }

  /** The recovery round trip: the code `sendToken` returns resets the
      password, after which the new password logs in and the old one does
      not. */
  lemma RecoverResetLogin(c: Crypto, users: Users, email: string, rand: nat -> nat, newPassword: string, oldPassword: string)
    requires Sound(c)
    requires email in users && email != ""
    requires newPassword != "" && oldPassword != ""
    requires ValidatePassword(c, users[email], oldPassword) && oldPassword != newPassword
    ensures var s := SendToken(c, users, Some(email), rand);
            && s.reply.Ok?
            && var t := ResetPass(c, s.users, Reset(Some(email), Some(newPassword), Some(s.reply.data)));
            && t.reply == Ok(())
            && Login(c, t.users, Credentials(Some(email), Some(newPassword))).reply.Ok?
            && Login(c, t.users, Credentials(Some(email), Some(oldPassword))).reply == Refused(Unauthorized, WrongPassword)
  {
  }

  /** A code other than the one issued is refused, and the store is untouched. */
  lemma WrongCodeRefused(c: Crypto, users: Users, email: string, rand: nat -> nat, password: string, guess: string)
    requires Sound(c)
    requires email in users && email != "" && password != "" && guess != ""
    requires guess != SendToken(c, users, Some(email), rand).reply.data
    ensures var s := SendToken(c, users, Some(email), rand);
            var t := ResetPass(c, s.users, Reset(Some(email), Some(password), Some(guess)));
            t.reply == Refused(Unauthorized, WrongToken) && t.users == s.users
  {
  }

  /** As written, a successful reset leaves the recovery hash in place, so the
      same code resets the password again. */
  lemma RecoveryCodeReusable(c: Crypto, users: Users, email: string, rand: nat -> nat, first: string, second: string)
    requires Sound(c)
    requires email in users && email != "" && first != "" && second != ""
    ensures var s := SendToken(c, users, Some(email), rand);
            var code := s.reply.data;
            var t := ResetPass(c, s.users, Reset(Some(email), Some(first), Some(code)));
            && t.reply == Ok(())
            && ResetPass(c, t.users, Reset(Some(email), Some(second), Some(code))).reply == Ok(())
  {
  }

  /** `resetPass` with the recovery hash cleared on success, so that an issued
      code can be used once. */
  function ResetPassSingleUse(c: Crypto, users: Users, req: Reset): (r: Step<()>)
    ensures r.reply == ResetPass(c, users, req).reply
    ensures !r.reply.Ok? ==> r.users == users
    ensures r.reply.Ok? ==>
              var e := req.email.value;
              && r.users.Keys == users.Keys
              && r.users[e].recoverToken.None?
              && r.users[e].(recoverToken := users[e].recoverToken) == ResetPass(c, users, req).users[e]
    ensures forall e :: e in users && Some(e) != req.email ==> e in r.users && r.users[e] == users[e]
  {
    var r := ResetPass(c, users, req);
    if r.reply.Ok? then
      var e := req.email.value;
      Step(r.reply, r.users[e := r.users[e].(recoverToken := None)])
    else r
  }

  /** With the recovery hash cleared, the issued code resets the password once
      and then no code at all is accepted until a new one is requested. */
  lemma SingleUseCodeRejectedAgain(c: Crypto, users: Users, email: string, rand: nat -> nat, first: string, second: string, code: string)
    requires Sound(c)
    requires email in users && email != "" && first != "" && second != "" && code != ""
    ensures var s := SendToken(c, users, Some(email), rand);
            var t := ResetPassSingleUse(c, s.users, Reset(Some(email), Some(first), Some(s.reply.data)));
            && t.reply == Ok(())
            && ResetPassSingleUse(c, t.users, Reset(Some(email), Some(second), Some(code))).reply
                 == Refused(Unauthorized, WrongToken)
  {
  }

  /** The recovery round trip also holds for the single-use reset. */
  lemma SingleUseRecoverResetLogin(c: Crypto, users: Users, email: string, rand: nat -> nat, newPassword: string, oldPassword: string)
    requires Sound(c)
    requires email in users && email != ""
    requires newPassword != "" && oldPassword != ""
    requires ValidatePassword(c, users[email], oldPassword) && oldPassword != newPassword
    ensures var s := SendToken(c, users, Some(email), rand);
            var t := ResetPassSingleUse(c, s.users, Reset(Some(email), Some(newPassword), Some(s.reply.data)));
            && t.reply == Ok(())
            && Login(c, t.users, Credentials(Some(email), Some(newPassword))).reply.Ok?
            && Login(c, t.users, Credentials(Some(email), Some(oldPassword))).reply == Refused(Unauthorized, WrongPassword)
  {
  }

  /** As written, `addUser` never checks the role: a request for a new
      address at a known domain registers even with no role. */
  lemma MissingRoleAccepted(c: Crypto, users: Users, insts: Directory, name: string, local: string, domain: string, password: string, newId: UserId)
    requires name != "" && password != ""
    requires '@' !in local && '@' !in domain && domain in insts
    requires local + "@" + domain !in users
    ensures var req := SignUp(Some(name), Some(local + "@" + domain), Some(password), None);
            var r := AddUser(c, users, insts, req, newId);
            && r.reply.Ok? && r.reply.data.role.None?
            && r.users[local + "@" + domain].role.None?
  {
    DomainOfAddress(local, domain, "");
    assert local + "@" + domain + "" == local + "@" + domain;
  }

  /** `addUser` checking all four documented fields, role included. */
  function AddUserRequiringRole(c: Crypto, users: Users, insts: Directory, req: SignUp, newId: UserId): (r: Step<User>)
    ensures r.reply.ParamsMissing? <==>
              Missing(req.email) || Missing(req.name) || Missing(req.password) || Missing(req.role)
    ensures !Missing(req.role) ==> r == AddUser(c, users, insts, req, newId)
    ensures r.reply.Ok? ==> r.reply.data.role.Some? && r.reply.data.role.value != ""
    ensures !r.reply.Ok? ==> r.users == users
  {
    if Missing(req.role) then Step(ParamsMissing, users)
    else AddUser(c, users, insts, req, newId)
  }

  /** A registration that succeeds cannot be repeated: the same request
      against the resulting store is refused as a duplicate, whatever id is
      given to the new document. */
  lemma RegisterThenConflict(c: Crypto, users: Users, insts: Directory, req: SignUp, id1: UserId, id2: UserId)
    requires AddUser(c, users, insts, req, id1).reply.Ok?
    ensures var first := AddUser(c, users, insts, req, id1);
            var second := AddUser(c, first.users, insts, req, id2);
            second.reply == Refused(BadRequest, EmailExists) && second.users == first.users
  {
  }

  /** Registering `local@domain` succeeds when `domain` is a known
      institution, links the user to that institution, and registering the
      same e-mail again is a conflict. */
  lemma RegisterAtKnownDomain(c: Crypto, users: Users, insts: Directory, name: string, local: string, domain: string,
                              password: string, role: Field, id1: UserId, id2: UserId)
    requires name != "" && password != ""
    requires '@' !in local && '@' !in domain && domain in insts
    requires local + "@" + domain !in users
    ensures var req := SignUp(Some(name), Some(local + "@" + domain), Some(password), role);
            var first := AddUser(c, users, insts, req, id1);
            && first.reply.Ok?
            && first.reply.data.institution == insts[domain].id
            && AddUser(c, first.users, insts, req, id2).reply == Refused(BadRequest, EmailExists)
  {
    DomainOfAddress(local, domain, "");
    assert local + "@" + domain + "" == local + "@" + domain;
  }

  /** The domain is the segment between the first and any second '@', not
      everything after the first: `a@known.edu@x` looks up `known.edu`. */
  lemma DomainStopsAtSecondAt()
    ensures DomainOf("a@known.edu@x") == Some("known.edu")
  {
    DomainOfAddress("a", "known.edu", "@x");
    assert "a" + "@" + "known.edu" + "@x" == "a@known.edu@x";
  }
}
