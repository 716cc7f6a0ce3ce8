/** The `users` table and its insert hook. */
module UserEntity {

  /** Declared column widths: `varchar(255)` email, `varchar(100)` username, `varchar(255)` password. */
  const EmailMaxLength: nat := 255
  const UsernameMaxLength: nat := 100
  const PasswordMaxLength: nat := 255

  /** A stored user; `password` holds whatever string was inserted (a bcrypt digest in practice). */
  datatype User = User(
    id: int,
    email: string,
    username: string,
    password: string,
    isAdmin: bool,
    createdAt: int)

  /** The row fits the declared column widths, so the database accepts it. */
  predicate FitsColumns(u: User)
  {
    |u.email| <= EmailMaxLength && |u.username| <= UsernameMaxLength && |u.password| <= PasswordMaxLength
  }

  /**
   * The `@BeforeInsert` hook: a non-empty password is replaced by its
   * bcrypt hash, an empty one is left as it is; no other field changes.
   * `hash` stands for bcrypt.hash with cost 10 and a fresh salt.
   */
  function HashPassword(u: User, hash: string -> string): (r: User)
    ensures r.id == u.id && r.email == u.email && r.username == u.username
    ensures r.isAdmin == u.isAdmin && r.createdAt == u.createdAt
    ensures u.password == [] ==> r == u
    ensures u.password != [] ==> r.password == hash(u.password)
  {
    if u.password != [] then u.(password := hash(u.password)) else u
  }

  /**
   * Registration already hashes the password before the row reaches the
   * hook, and a bcrypt digest is never empty, so the stored value is the
   * hash of the hash of what the user typed.
   */
  lemma HookHashesTwice(u: User, plaintext: string, hash: string -> string)
    requires u.password == hash(plaintext)
    requires forall s :: hash(s) != []
    ensures HashPassword(u, hash).password == hash(hash(plaintext))
  {
  }
}
