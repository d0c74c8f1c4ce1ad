/**
 * The credential store of data/data.go: the `users` table, the salted
 * password digest and the three queries over the table.
 *
 * SHA-256 is not modelled; every operation that hashes takes the hash
 * function as a parameter `sha`, a deterministic function from the salted
 * message to a 32-byte digest.
 */
module Data {

  /** A SHA-256 digest: always exactly 32 bytes. */
  type Digest = s: seq<bv8> | |s| == 32 witness seq(32, _ => 0 as bv8)

  /** SHA-256 over the bytes of a Go string. */
  type Sha256 = string -> Digest

  /** The process-wide salt prepended to every password before hashing. */
  const HashSalt: string := "usaltybro?"

  /** One row of `create table users (id integer primary key, name text, password text)`. */
  datatype Row = Row(id: int, name: string, password: Digest)

  /**
   * `Password.GetHash`: SHA-256 of the salt followed by the password, a
   * 32-byte digest.
   */
  function GetHash(sha: Sha256, pw: string): (d: Digest)
    ensures |d| == 32
    ensures d == sha(HashSalt + pw)
  {
    sha(HashSalt + pw)
  }

  /**
   * The hash primitive does not collide on the two messages `a` and `b`.
   * No function from strings to 32-byte digests is collision-free on all
   * pairs, so this is only ever asked of particular messages.
   */
  ghost predicate NoCollision(sha: Sha256, a: string, b: string)
  {
    sha(a) == sha(b) ==> a == b
  }

  /**
   * The digest depends on nothing but the password: equal passwords give
   * equal digests and, when the hash does not collide on the two salted
   * messages, different passwords give different digests (the salt is
   * shared and cannot mask a difference).
   */
  lemma GetHashInjective(sha: Sha256, p: string, q: string)
    requires NoCollision(sha, HashSalt + p, HashSalt + q)
    ensures GetHash(sha, p) == GetHash(sha, q) <==> p == q
  {
    if GetHash(sha, p) == GetHash(sha, q) {
      assert HashSalt + p == HashSalt + q;
      assert p == (HashSalt + p)[|HashSalt|..];
      assert q == (HashSalt + q)[|HashSalt|..];
    }
  }

  // ---------------------------------------------------------------------
  // The table and its invariant

  /** Some row carries `name`. */
  ghost predicate HasName(users: seq<Row>, name: string)
  {
    exists i :: 0 <= i < |users| && users[i].name == name
  }

  /** Some row carries both `name` and `digest`. */
  ghost predicate HasCredential(users: seq<Row>, name: string, digest: Digest)
  {
    exists i :: 0 <= i < |users| && users[i].name == name && users[i].password == digest
  }

  /**
   * What holds of a table filled only through CreateUser: ids are
   * positive and distinct (an `integer primary key`) and no two rows share
   * a name.
   */
  ghost predicate TableInvariant(users: seq<Row>)
  {
    && (forall i :: 0 <= i < |users| ==> users[i].id > 0)
    && (forall i, j :: 0 <= i < j < |users| ==> users[i].id != users[j].id)
    && (forall i, j :: 0 <= i < j < |users| ==> users[i].name != users[j].name)
  }

  /** The largest id in the table, 0 for an empty table. */
  function MaxId(users: seq<Row>): (m: int)
    ensures m >= 0
    ensures forall i :: 0 <= i < |users| ==> users[i].id <= m
  {
    if |users| == 0 then 0
    else
      var rest := MaxId(users[1..]);
      if users[0].id > rest then users[0].id else rest
  }

  /**
   * The id SQLite gives a row inserted without one: one more than the
   * largest id present, or 1 in an empty table.
   */
  function NextId(users: seq<Row>): (id: int)
    ensures id >= 1
    ensures forall i :: 0 <= i < |users| ==> users[i].id < id
  {
    MaxId(users) + 1
  }

  /** Appending a row for an absent name under a fresh id keeps the invariant. */
  lemma InsertKeepsInvariant(users: seq<Row>, name: string, digest: Digest)
    requires TableInvariant(users)
    requires !HasName(users, name)
    ensures TableInvariant(users + [Row(NextId(users), name, digest)])
  {
  }

  // ---------------------------------------------------------------------
  // Queries

  /**
   * `select id from users where ...` read through `rows.Next()` and
   * `rows.Scan(&id)`: the id of the first row the condition admits, or the
   * sentinel -1 when the cursor is empty.
   */
  function SelectId(users: seq<Row>, cond: Row -> bool): (id: int)
    ensures (forall i :: 0 <= i < |users| ==> !cond(users[i])) ==> id == -1
    ensures (exists i :: 0 <= i < |users| && cond(users[i])) ==>
              exists i :: 0 <= i < |users| && cond(users[i]) && users[i].id == id
  {
    if |users| == 0 then -1
    else if cond(users[0]) then users[0].id
    else
      var id := SelectId(users[1..], cond);
      assert forall i :: 1 <= i < |users| ==> users[1..][i - 1] == users[i];
      id
  }

  /**
   * `IsRegisteredUser`: -1 when no row has the name, and otherwise the id of
   * a row that has it; under the table invariant that id is never -1.
   */
  function IsRegisteredUser(users: seq<Row>, name: string): (id: int)
    ensures !HasName(users, name) ==> id == -1
    ensures HasName(users, name) ==>
              exists i :: 0 <= i < |users| && users[i].name == name && users[i].id == id
    ensures TableInvariant(users) ==> (id == -1 <==> !HasName(users, name))
  {
    SelectId(users, (r: Row) => r.name == name)
  }

  /**
   * `IsValidLogin`: -1 when no row has both the name and the digest of the
   * password, and otherwise the id of a row that has both. An unknown name
   * and a wrong password give the same answer.
   */
  function IsValidLogin(sha: Sha256, users: seq<Row>, name: string, pw: string): (id: int)
    ensures !HasCredential(users, name, GetHash(sha, pw)) ==> id == -1
    ensures HasCredential(users, name, GetHash(sha, pw)) ==>
              exists i :: 0 <= i < |users| && users[i].name == name
                          && users[i].password == GetHash(sha, pw) && users[i].id == id
    ensures TableInvariant(users) ==> (id == -1 <==> !HasCredential(users, name, GetHash(sha, pw)))
  {
    var digest := GetHash(sha, pw);
    SelectId(users, (r: Row) => r.name == name && r.password == digest)
  }

  /**
   * The row a successful CreateUser appends is found again by IsValidLogin
   * with the same password, and its id is the one returned.
   */
  lemma LoginAfterInsert(sha: Sha256, users: seq<Row>, name: string, pw: string)
    requires TableInvariant(users)
    requires !HasName(users, name)
    ensures IsValidLogin(sha, users + [Row(NextId(users), name, GetHash(sha, pw))], name, pw)
            == NextId(users)
  {
    var users' := users + [Row(NextId(users), name, GetHash(sha, pw))];
    InsertKeepsInvariant(users, name, GetHash(sha, pw));
    assert users'[|users|].name == name;
    assert forall i :: 0 <= i < |users| ==> users'[i] == users[i];
  }

  /**
   * Once a user is registered under a digest, a password whose digest
   * differs is refused with -1: only the one row with that name could match.
   */
  lemma WrongPasswordRefused(sha: Sha256, users: seq<Row>, k: nat, pw: string)
    requires TableInvariant(users)
    requires k < |users|
    requires users[k].password != GetHash(sha, pw)
    ensures IsValidLogin(sha, users, users[k].name, pw) == -1
  {
  }

  /**
   * Registering `(name, pw)` and then logging in with another password
   * yields -1, provided the hash does not collide on the two salted
   * passwords.
   */
  lemma OtherPasswordRefusedAfterInsert(sha: Sha256, users: seq<Row>, name: string, pw: string, other: string)
    requires NoCollision(sha, HashSalt + pw, HashSalt + other)
    requires TableInvariant(users)
    requires !HasName(users, name)
    requires other != pw
    ensures IsValidLogin(sha, users + [Row(NextId(users), name, GetHash(sha, pw))], name, other) == -1
  {
    InsertKeepsInvariant(users, name, GetHash(sha, pw));
    GetHashInjective(sha, pw, other);
    var users' := users + [Row(NextId(users), name, GetHash(sha, pw))];
    WrongPasswordRefused(sha, users', |users|, other);
  }

  // ---------------------------------------------------------------------
  // The database handle

  /** The sqlite database behind `*sql.DB`, reduced to its `users` table. */
  class Database {
    var users: seq<Row>

    ghost predicate Valid()
      reads this
    {
      TableInvariant(users)
    }

    /** `CreateDB`: creates the `users` table and deletes every row. */
    constructor CreateDB()
      ensures Valid()
      ensures users == []
    {
      users := [];
    }

    /**
     * `CreateUser`: refuses a name that is already registered, otherwise
     * inserts `(fresh id, name, GetHash(pw))`. `execErr` stands for a
     * failure of the INSERT statement itself, which leaves the table as it
     * was and also yields false.
     */
    method CreateUser(sha: Sha256, name: string, pw: string, execErr: bool) returns (ok: bool)
      requires Valid()
      modifies this
      ensures Valid()
      ensures ok <==> !HasName(old(users), name) && !execErr
      ensures ok ==> users == old(users) + [Row(NextId(old(users)), name, GetHash(sha, pw))]
      ensures !ok ==> users == old(users)
    {
      if IsRegisteredUser(users, name) != -1 {
        return false;
      }
      if execErr {
        return false;
      }
      InsertKeepsInvariant(users, name, GetHash(sha, pw));
      users := users + [Row(NextId(users), name, GetHash(sha, pw))];
      ok := true;
    }
  }

  /**
   * The sequence of calls in the package's user-workflow test, on a freshly
   * created table: "ersin" is unknown, is then created, "bob" stays
   * unknown, "ersin" logs in with "coffee" and, unless the hash collides on
   * the two salted passwords, not with "ahuuehueh".
   */
  method UserWorkflow(sha: Sha256)
    returns (before: int, created: bool, bob: int, after: int, login: int, wrongLogin: int)
    ensures before == -1 && created && bob == -1
    ensures after != -1 && after == login
    ensures NoCollision(sha, HashSalt + "coffee", HashSalt + "ahuuehueh") ==> wrongLogin == -1
  {
    var db := new Database.CreateDB();
    before := IsRegisteredUser(db.users, "ersin");
    created := db.CreateUser(sha, "ersin", "coffee", false);
    bob := IsRegisteredUser(db.users, "bob");
    after := IsRegisteredUser(db.users, "ersin");
    login := IsValidLogin(sha, db.users, "ersin", "coffee");
    wrongLogin := IsValidLogin(sha, db.users, "ersin", "ahuuehueh");
    LoginAfterInsert(sha, [], "ersin", "coffee");
    assert db.users[0].name == "ersin";
    if NoCollision(sha, HashSalt + "coffee", HashSalt + "ahuuehueh") {
      OtherPasswordRefusedAfterInsert(sha, [], "ersin", "coffee", "ahuuehueh");
    }
  }
}
