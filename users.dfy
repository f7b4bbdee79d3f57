/**
 * The `users` table: one record per user, keyed by its id, with the
 * column constraints (primary key, unique email) as predicates over the
 * whole table.
 */
module Users {
  import opened Wrappers
  import opened Http

  /**
   * A row of the table. `email`, `password` and `name` are required
   * strings; `bio` may be absent; `isActive` is the soft-delete flag.
   */
  datatype User = User(
    id: string,
    email: string,
    password: string,
    name: string,
    bio: Option<string>,
    isActive: bool
  )

  /** The table, from primary key to record. */
  type Table = map<string, User>

  /** Length of the text form of a generated uuid4, the width of the id column. */
  const IdLength: nat := 36

  predicate IsGeneratedId(s: string) {
    |s| == IdLength
  }

  /** A record as inserted: `bio` unset and `isActive` at its column default. */
  function NewUser(id: string, email: string, password: string, name: string): User {
    User(id, email, password, name, None, true)
  }

  /** Every record sits under its own id: `id` is the primary key. */
  ghost predicate KeyedById(users: Table) {
    forall id | id in users :: users[id].id == id
  }

  /** No two records share an email: the unique constraint on `email`. */
  ghost predicate EmailsUnique(users: Table) {
    forall a, b | a in users && b in users && users[a].email == users[b].email :: a == b
  }

  /** The constraints the table's schema imposes. */
  ghost predicate Wellformed(users: Table) {
    KeyedById(users) && EmailsUnique(users)
  }

  /** Some record has this email. */
  predicate EmailRegistered(users: Table, email: string) {
    exists id | id in users :: users[id].email == email
  }

  /**
   * Every stored password is the hash of some plaintext: the table never
   * holds a password that did not come out of `hash`.
   */
  ghost predicate HashedAtRest(users: Table, hash: string -> string) {
    forall id | id in users :: exists plaintext :: users[id].password == hash(plaintext)
  }

  /**
   * Some record with this email is inactive. Emails never change and no
   * record is ever removed, so this identifies a soft-deleted user even
   * when a delete has moved the record to another key.
   */
  ghost predicate InactiveEmail(users: Table, email: string) {
    exists id | id in users :: users[id].email == email && !users[id].isActive
  }

  /**
   * The key of the record with this email, if any: the lookup
   * `query(User).filter(User.email == email).first()`.
   */
  function FindByEmail(users: Table, email: string): (r: Option<string>)
    requires EmailsUnique(users)
    ensures r.Some? <==> EmailRegistered(users, email)
    ensures r.Some? ==> r.value in users && users[r.value].email == email
  {
    if EmailRegistered(users, email) then
      var id :| id in users && users[id].email == email;
      Some(id)
    else
      None
  }

  /** The table after one request, and the reply to it. */
  datatype Outcome<+T> = Outcome(users: Table, response: Response<T>)

  /** The database session's view of the table, updated in place by the routes. */
  class UserStore {
    var users: Table

    ghost predicate Valid()
      reads this
    {
      Wellformed(users)
    }

    /** An empty table. */
    constructor ()
      ensures Valid() && users == map[]
    {
      users := map[];
    }
  }
}
