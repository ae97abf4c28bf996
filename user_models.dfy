/** The account record of `users/models.py`: users log in with their e-mail
    address, which is unique, and carry an optional confirmation or reset
    token. */
module UserModels {
  import opened Shared

  const TOKEN_MAX_LENGTH: nat := 100

  /** The permission that governs blocking and unblocking other users. */
  const BLOCK_PERMISSION: string := "can_block_service_users"

  /** A user row. `email` is the login field (there is no user name);
      `groups` are the names of the groups the user belongs to. */
  datatype User = User(id: nat, email: string, isActive: bool, token: Option<string>, groups: set<string>)

  /** `__str__`: a user is shown as their e-mail address. */
  function Display(u: User): string {
    u.email
  }

  /** No two users share an e-mail address (`unique=True`). */
  predicate EmailsUnique(users: map<nat, User>) {
    forall a, b :: a in users && b in users && a != b ==> users[a].email != users[b].email
  }

  predicate TokenFits(u: User) {
    u.token.Some? ==> |u.token.value| <= TOKEN_MAX_LENGTH
  }

  /** The users table keyed by primary key. */
  predicate UsersValid(users: map<nat, User>) {
    && (forall k :: k in users ==> users[k].id == k && TokenFits(users[k]))
    && EmailsUnique(users)
  }

  /** Because e-mail addresses are unique, the string form of a user tells
      users apart. */
  lemma DisplayIdentifies(users: map<nat, User>, a: nat, b: nat)
    requires UsersValid(users) && a in users && b in users
    ensures Display(users[a]) == Display(users[b]) <==> a == b
  {
  }

  /** The user whose login is `email`, if any: at most one user can match. */
  function UserByEmail(users: map<nat, User>, email: string): (r: Option<nat>)
    requires EmailsUnique(users)
    ensures r.Some? ==> r.value in users && users[r.value].email == email
    ensures r.None? <==> forall k :: k in users ==> users[k].email != email
    ensures r.Some? ==> forall k :: k in users && users[k].email == email ==> k == r.value
  {
    if exists k :: k in users && users[k].email == email then
      var k :| k in users && users[k].email == email;
      Some(k)
    else
      None
  }
}
