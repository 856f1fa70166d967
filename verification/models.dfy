/** The three stored record shapes (users, refresh tokens, shifts), their column
    defaults and the uniqueness constraints of the schema, stated as invariants
    over in-memory tables. */
module Models {
  import opened Wrappers

  const DefaultRole: string := "driver"

  /** A row of `users`; `id` is the integer primary key. */
  datatype User = User(id: int, username: string, passwordHash: string, role: string, isActive: bool)

  /** A row of `refresh_tokens`. Times are whole seconds since the epoch. */
  datatype RefreshToken = RefreshToken(jti: string, userId: int, revoked: bool, createdAt: int, expiresAt: int)

  /** A row of `shifts`; `endTime == None` (SQL NULL) means the shift is still open. */
  datatype Shift = Shift(id: int, startTime: string, endTime: Option<string>)

  /** A freshly inserted user, with the column defaults the schema supplies. */
  function NewUser(id: int, username: string, passwordHash: string, role: string := DefaultRole): User
  {
    User(id, username, passwordHash, role, true)
  }

  /** A freshly inserted refresh-token row: never revoked at creation. */
  function NewRefreshToken(jti: string, userId: int, createdAt: int, expiresAt: int): RefreshToken
  {
    RefreshToken(jti, userId, false, createdAt, expiresAt)
  }

  /** The largest element of `xs`, or 0 for none: the next rowid is one more. */
  function MaxOf(xs: seq<int>): (m: int)
    ensures m >= 0
    ensures forall i :: 0 <= i < |xs| ==> xs[i] <= m
    ensures m == 0 || exists i :: 0 <= i < |xs| && xs[i] == m
  {
    if |xs| == 0 then 0
    else
      var rest := MaxOf(xs[..|xs| - 1]);
      if xs[|xs| - 1] > rest then xs[|xs| - 1] else rest
  }

  /** The next rowid of a table: one more than the largest primary key, 1 when empty. */
  function NextId<T>(rows: seq<T>, key: T -> int): (id: int)
    ensures id >= 1
    ensures forall i :: 0 <= i < |rows| ==> key(rows[i]) < id
  {
    var ids := seq(|rows|, i requires 0 <= i < |rows| => key(rows[i]));
    assert forall i :: 0 <= i < |rows| ==> ids[i] == key(rows[i]);
    MaxOf(ids) + 1
  }

  /** Primary keys ascend in storage (rowid) order; in particular they are unique. */
  predicate UserIdsAscend(users: seq<User>) {
    forall i, j :: 0 <= i < j < |users| ==> users[i].id < users[j].id
  }

  /** The `unique=True` constraint on `users.username`. */
  predicate UsernamesUnique(users: seq<User>) {
    forall i, j :: 0 <= i < j < |users| ==> users[i].username != users[j].username
  }

  predicate UsersWellFormed(users: seq<User>) {
    UserIdsAscend(users) && UsernamesUnique(users)
  }

  predicate HasUserId(users: seq<User>, id: int) {
    exists i :: 0 <= i < |users| && users[i].id == id
  }

  /** The refresh-token table is keyed by its unique `jti` column, and every row's
      owner is an existing user (the `users.id` foreign key). */
  predicate TokensWellFormed(tokens: map<string, RefreshToken>, users: seq<User>) {
    forall j :: j in tokens ==> tokens[j].jti == j && HasUserId(users, tokens[j].userId)
  }

  /** Shift ids ascend in storage order (AUTOINCREMENT). */
  predicate ShiftIdsAscend(rows: seq<Shift>) {
    forall i, j :: 0 <= i < j < |rows| ==> rows[i].id < rows[j].id
  }

  predicate IsOpen(s: Shift) {
    s.endTime.None?
  }

  /** Distinct keys of a well-formed token table hold distinct `jti` values. */
  lemma JtiUnique(tokens: map<string, RefreshToken>, users: seq<User>, a: string, b: string)
    requires TokensWellFormed(tokens, users)
    requires a in tokens && b in tokens && a != b
    ensures tokens[a].jti != tokens[b].jti
  {
  }
}
