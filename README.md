# Credential check of the crime-pattern dashboard

The dashboard's login screen calls `authenticate_user(username, password)`.
The function loads the user table, a dictionary keyed by username whose
values hold a plaintext `password` and a `role`. It returns the stored role
when the username is a key and the stored password equals the supplied one
exactly. Otherwise it returns `None`. This project models that check in
Dafny and proves when it succeeds, what it returns, and what it depends on.

- `Wrappers.Option` stands for "a role or Python's `None`".
- `Utils.UserRecord` is one stored record. `Utils.UserTable` is
  `map<string, UserRecord>`, the dictionary that `load_users` returns.
- `Utils.Authenticate` is the check as a pure function of the table, the
  username and the password. The table is an argument and the result is a
  value, so authentication cannot write back to the table. That is how the
  model states the read-only property.
- `Utils.Grants` is a separate reference view of the table: the set of
  (username, password, role) records it stores, one per key. A store could
  hold its users as a list of such records; this code instead keys a
  dictionary by username, and `Grants` reads that dictionary as records.
- `Utils.ApplyWrite` sets or deletes one key's record, and `Utils.ApplyWrites`
  applies a sequence of such writes in order. They are used to state locality
  across any number of changes.

A credential store of this kind could instead hash passwords, scan a list of
records, validate roles and create users. This code does none of these, and
the model follows the code:
- passwords are compared as plaintext, with no hashing;
- the lookup is a key test on a dictionary, not a scan of a list of records;
- the role is any stored string, not one of a closed set of values;
- there is no user creation, because `create_user` is not defined in `utils.py`.

## Model

| member | source | states |
|---|---|---|
| Utils.AuthenticateSucceeds | utils.py:9-10 | a username that is a key, with its stored password supplied, yields `Some` of that record's role |
| Utils.AuthenticateUnknownUser | utils.py:9-11 | a username that is not a key yields `None` for every password |
| Utils.AuthenticateWrongPassword | utils.py:9-11 | a known username with any password other than the stored one yields `None` |
| Utils.AuthenticateFailuresIndistinguishable | utils.py:9-11 | an unknown username and a wrong password give the same answer, `None` |
| Utils.Authenticate | utils.py:7-11 | the answer is `Some(role)` exactly when the table, read as its set of (username, password, role) triples, grants that triple; otherwise `None` |
| Utils.GrantsOnePerUser | utils.py:9-10 | the table, keyed by username, holds one credential per username: its set of triples has exactly as many members as the table has keys, and no two triples share a username |
| Utils.AuthenticateCharacterisation | utils.py:9-10 | the answer is `Some(role)` exactly when the record stored under that username is exactly (password, role), so the supplied password must equal the stored one untransformed; the role is never another user's |
| Utils.AuthenticateRoleReachable | utils.py:9-10 | some password yields `role` for a username exactly when that username stores `role`; the stored password does so, and it is the only password that succeeds |
| Utils.AuthenticateOneCharChanged | utils.py:9 | changing any one character of the stored password makes the check fail; together with the characterisation, the password is compared by plain equality with no transformation |
| Utils.AuthenticatePrefixOrExtension | utils.py:9 | a password of another length than the stored one, such as a proper prefix or extension, fails |
| Utils.AuthenticateLocal | utils.py:9-10 | two tables that agree on the username's presence and record give the same answer |
| Utils.AuthenticateOtherPut | utils.py:9-10 | adding or changing the entry of another key leaves the answer unchanged |
| Utils.AuthenticateOtherRemove | utils.py:9-10 | removing the entry of another key leaves the answer unchanged |
| Utils.AuthenticateOtherWrites | utils.py:9-10 | any sequence of writes and deletions of other keys leaves the answer unchanged |
| Utils.AuthenticateDeterminesTable | utils.py:9-10 | two tables that answer every login the same are equal: the check observes every key, stored password and stored role |

## Left out

- `load_users` (utils.py:3-5) opens `users.json` and parses JSON. That is I/O, so the model takes the loaded dictionary as the `users` argument.
- Malformed records in the loaded dictionary behave differently in Python:
  - a record that is not an object (`"alice": "pw"` or `"alice": null`) makes `users[username]['password']` at utils.py:9 raise `TypeError`;
  - a record missing its `password` field raises `KeyError` at utils.py:9 whenever its username is asked for;
  - a record missing its `role` field raises `KeyError` at utils.py:10 only when the correct password is supplied; with any other password the test at utils.py:9 is false and utils.py:11 returns `None`;
  - a password that is not a string compares unequal, so the login fails;
  - a role that is not a string is returned unchanged at utils.py:10, so a `null` role turns a correct login into `None`.
  `UserRecord` always holds both fields as strings, so none of these cases is modelled.
- Strings are sequences of Unicode scalar values. A lone surrogate in the stored JSON (such as `"\ud800"`, which Python's JSON reader accepts) has no counterpart in the model.
- The file path and the re-reading of the file on every call are I/O and are not modelled. Each call of `Authenticate` sees the table it is given.
- `create_user` is imported by app.py but not defined in utils.py, so there is no signup behaviour to model.
- app.py writes the file as `{"users": [...]}`, but utils.py reads it as a dictionary keyed by username. Only the keyed view that `authenticate_user` uses is modelled. The Python `TypeError` raised when the username is literally `users` comes from this mismatch and is not modelled.
- app.py is the Streamlit user interface: page setup, styling, widgets, session state and the role options list. It is not modelled. That includes its test `if role:`, which treats a stored empty role as a failed login.
