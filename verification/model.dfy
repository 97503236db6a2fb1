/** The records the credential core reads and writes, and the collaborators it
    calls but whose implementation lies outside it (hashing, JWT signing). */
module Model {
  import opened Wrappers

  type UserId = nat
  type InstitutionId = nat
  /** A stored hash (password or recovery code). */
  type Digest = string
  /** A signed session token. */
  type Token = string

  /** A user document. `kind` is the `type` attribute that `resetPass` reads
      when it signs a token; this core never sets it. */
  datatype User = User(
    id: UserId,
    name: string,
    email: string,
    role: Option<string>,
    kind: Option<string>,
    institution: InstitutionId,
    password: Digest,
    recoverToken: Option<Digest>,
    token: Token)

  datatype Institution = Institution(id: InstitutionId, domain: string, name: string)

  /** The user collection, looked up by exact e-mail. */
  type Users = map<string, User>
  /** The institution collection, looked up by domain; read-only here. */
  type Directory = map<string, Institution>

  /** The user's hashing methods (`encrypt`, `validatePassword`,
      `validateToken`) and `createToken`, as opaque functions. */
  datatype Crypto = Crypto(
    encrypt: string -> Digest,
    verify: (Digest, string) -> bool,
    createToken: (string, UserId, Option<string>) -> Token)

  /** The one property the core relies on: a hash verifies exactly the
      plaintext it was made from. */
  ghost predicate Sound(c: Crypto) {
    forall s, t :: c.verify(c.encrypt(s), t) <==> s == t
  }

  /** `user.validatePassword(password)`. */
  predicate ValidatePassword(c: Crypto, u: User, password: string) {
    c.verify(u.password, password)
  }

  /** `user.validateToken(code)`: checks the code against the stored recovery
      hash; with no hash stored nothing validates. */
  predicate ValidateToken(c: Crypto, u: User, code: string) {
    u.recoverToken.Some? && c.verify(u.recoverToken.value, code)
  }

  /** Every user is stored under its own e-mail and ids are distinct. */
  ghost predicate WellFormed(users: Users) {
    && (forall e :: e in users ==> users[e].email == e)
    && (forall e1, e2 :: e1 in users && e2 in users && users[e1].id == users[e2].id ==> e1 == e2)
  }

  /** Every institution is stored under its own domain. */
  ghost predicate DirectoryWellFormed(insts: Directory) {
    forall d :: d in insts ==> insts[d].domain == d
  }

  /** How the store may evolve under the core: no user is removed, and a
      user's identity (id, name, e-mail, role, institution) never changes. */
  ghost predicate Evolves(users: Users, users': Users) {
    forall e :: e in users ==>
      && e in users'
      && users'[e].id == users[e].id
      && users'[e].name == users[e].name
      && users'[e].email == users[e].email
      && users'[e].role == users[e].role
      && users'[e].institution == users[e].institution
  }
}
