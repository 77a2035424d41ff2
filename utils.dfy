/**
 The credential check of the dashboard's login screen.

 The user table is the object that `load_users` reads from `users.json`: a
 dictionary keyed by username whose values are records with a `password`
 and a `role`. Reading the file is not modelled; the already-loaded table is
 an explicit argument, so authentication is a function of its inputs and
 cannot write anything back.
 */
module Utils {
  import opened Wrappers

  /** One stored user: the plaintext password and the role string, both as stored. */
  datatype UserRecord = UserRecord(password: string, role: string)

  /** The loaded user table, keyed by username (usernames compare exactly). */
  type UserTable = map<string, UserRecord>

  /**
   The login check: the stored role when the username is a key of the table
   and its stored password equals the supplied one exactly, `None` otherwise.
   Stated against the table's grants: the answer is `Some(role)` exactly when
   the table grants the triple (username, password, role).
   */
  function Authenticate(users: UserTable, username: string, password: string): (r: Option<string>)
    ensures forall role :: r == Some(role) <==> (username, password, role) in Grants(users)
  {
    if username in users && users[username].password == password then
      Some(users[username].role)
    else
      None
  }

  /**
   The table read as a set of (username, password, role) records, one per
   key. A store could hold its users as such records; this code instead keys
   a dictionary by username, and `Grants` is the record view of that dictionary.
   */
  function Grants(users: UserTable): (g: set<(string, string, string)>)
  {
    set u | u in users :: (u, users[u].password, users[u].role)
  }

  /**
   The table holds one credential per username: its grants have as many
   triples as the table has keys, and no two triples share a username.
   */
  lemma {:induction false} GrantsOnePerUser(users: UserTable)
    ensures |Grants(users)| == |users|
    ensures forall t, t' :: t in Grants(users) && t' in Grants(users) && t.0 == t'.0 ==> t == t'
    decreases |users|
  {
    if users == map[] {
      assert Grants(users) == {};
    } else {
      var k :| k in users;
      var rest := users - {k};
      GrantsOnePerUser(rest);
      var g := (k, users[k].password, users[k].role);
      forall t | t in Grants(users) ensures t in Grants(rest) + {g} {
        var u :| u in users && t == (u, users[u].password, users[u].role);
        if u != k {
          assert u in rest;
        }
      }
      forall t | t in Grants(rest) ensures t in Grants(users) {
        var u :| u in rest && t == (u, rest[u].password, rest[u].role);
        assert u in users;
      }
      assert Grants(users) == Grants(rest) + {g};
      assert g !in Grants(rest);
      assert |users| == |rest| + 1;
    }
  }

  // ----- when it succeeds and what it returns -----

  /** A stored user giving the stored password gets the stored role. */
  lemma AuthenticateSucceeds(users: UserTable, username: string, password: string)
    requires username in users && users[username].password == password
    ensures Authenticate(users, username, password) == Some(users[username].role)
  {
  }

  /** A username that is not a key of the table is rejected, whatever the password. */
  lemma AuthenticateUnknownUser(users: UserTable, username: string, password: string)
    requires username !in users
    ensures Authenticate(users, username, password) == None
  {
  }

  /** A stored user giving any other password is rejected. */
  lemma AuthenticateWrongPassword(users: UserTable, username: string, password: string)
    requires username in users && users[username].password != password
    ensures Authenticate(users, username, password) == None
  {
  }

  /**
   Both failures give the same answer, so a caller cannot tell an unknown
   username from a wrong password.
   */
  lemma AuthenticateFailuresIndistinguishable(users: UserTable, unknown: string, known: string, password: string)
    requires unknown !in users
    requires known in users && users[known].password != password
    ensures Authenticate(users, unknown, password) == Authenticate(users, known, password) == None
  {
  }

  /**
   Characterisation: the answer is `Some(role)` exactly when the record stored
   under the username is (password, role), so the role returned is always the
   one stored under the username asked about and never another user's.
   */
  lemma AuthenticateCharacterisation(users: UserTable, username: string, password: string, role: string)
    ensures Authenticate(users, username, password) == Some(role)
      <==> username in users && users[username] == UserRecord(password, role)
  {
  }

  /**
   Every stored role is reachable, and only by its own user: some password
   yields `role` for `username` exactly when the table stores `role` under
   `username`; the stored password is that password, and the only one.
   */
  lemma AuthenticateRoleReachable(users: UserTable, username: string, role: string)
    ensures (exists password :: Authenticate(users, username, password) == Some(role))
      <==> username in users && users[username].role == role
    ensures username in users
      ==> Authenticate(users, username, users[username].password) == Some(users[username].role)
    ensures forall password ::
              (Authenticate(users, username, password).Some?
               ==> username in users && password == users[username].password)
  {
    if username in users && users[username].role == role {
      // The witness for the existential is the stored password itself.
      assert Authenticate(users, username, users[username].password) == Some(role);
    }
  }

  // ----- exact comparison -----

  /**
   The password is compared by plain equality: changing any one character of
   the stored password makes the check fail.
   */
  lemma AuthenticateOneCharChanged(users: UserTable, username: string, i: nat, c: char)
    requires username in users
    requires i < |users[username].password| && users[username].password[i] != c
    ensures Authenticate(users, username, users[username].password[i := c]) == None
  {
    assert users[username].password[i := c][i] == c;
  }

  /**
   A proper prefix or a proper extension of the stored password is rejected,
   as is any string of another length. This is a special case of
   `AuthenticateWrongPassword`: strings of different lengths are different.
   */
  lemma AuthenticatePrefixOrExtension(users: UserTable, username: string, password: string)
    requires username in users
    requires |password| != |users[username].password|
    ensures Authenticate(users, username, password) == None
  {
  }

  // ----- locality -----

  /**
   The answer depends on the table only through the record stored under the
   username: two tables that agree there answer the same.
   */
  lemma AuthenticateLocal(users: UserTable, users': UserTable, username: string, password: string)
    requires username in users <==> username in users'
    requires username in users ==> users[username] == users'[username]
    ensures Authenticate(users, username, password) == Authenticate(users', username, password)
  {
  }

  /** Adding or changing another user's entry leaves the answer unchanged. */
  lemma AuthenticateOtherPut(users: UserTable, other: string, record: UserRecord, username: string, password: string)
    requires other != username
    ensures Authenticate(users[other := record], username, password) == Authenticate(users, username, password)
  {
  }

  /** Removing another user's entry leaves the answer unchanged. */
  lemma AuthenticateOtherRemove(users: UserTable, other: string, username: string, password: string)
    requires other != username
    ensures Authenticate(users - {other}, username, password) == Authenticate(users, username, password)
  {
  }

  /** One rewrite of a single entry of the table: set or delete the record of `key`. */
  datatype TableWrite = Put(key: string, record: UserRecord) | Delete(key: string)

  /** The table after one write; every other key keeps its entry. */
  function ApplyWrite(users: UserTable, w: TableWrite): (u: UserTable)
    ensures forall k :: k != w.key ==> (k in u <==> k in users)
    ensures forall k :: k != w.key && k in u ==> u[k] == users[k]
  {
    match w
    case Put(k, r) => users[k := r]
    case Delete(k) => users - {k}
  }

  /** The table after the writes, applied in order. */
  function ApplyWrites(users: UserTable, writes: seq<TableWrite>): (u: UserTable)
    decreases |writes|
  {
    if writes == [] then users
    else ApplyWrites(ApplyWrite(users, writes[0]), writes[1..])
  }

  /**
   Any number of writes to entries other than the username's, in any order,
   leave that user's login answer unchanged.
   */
  lemma {:induction false} AuthenticateOtherWrites(users: UserTable, writes: seq<TableWrite>, username: string, password: string)
    requires forall i :: 0 <= i < |writes| ==> writes[i].key != username
    ensures Authenticate(ApplyWrites(users, writes), username, password) == Authenticate(users, username, password)
    decreases |writes|
  {
    if writes != [] {
      var next := ApplyWrite(users, writes[0]);
      AuthenticateLocal(next, users, username, password);
      AuthenticateOtherWrites(next, writes[1..], username, password);
    }
  }

  // ----- authentication observes the whole stored record -----

  /**
   Two tables that give the same answer to every login are the same table:
   the check observes every key, every stored password and every stored role,
   and nothing else.
   */
  lemma AuthenticateDeterminesTable(users: UserTable, users': UserTable)
    requires forall u, p :: Authenticate(users, u, p) == Authenticate(users', u, p)
    ensures users == users'
  {
    forall u | u in users ensures u in users' && users'[u] == users[u] {
      assert Authenticate(users, u, users[u].password) == Some(users[u].role);
      assert Authenticate(users', u, users[u].password) == Some(users[u].role);
    }
    forall u | u in users' ensures u in users {
      assert Authenticate(users', u, users'[u].password) == Some(users'[u].role);
      assert Authenticate(users, u, users'[u].password) == Some(users'[u].role);
    }
  }
}
