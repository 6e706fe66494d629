/**
 * The dashboard's user store and the four operations on it: `login_user`, `add_new_user`,
 * `update_user_details` and `delete_user_by_name`.  The JSON file behind `load_users` and
 * `save_users` is the `users` field of a `UserStore`: an operation loads it, works on its
 * copy and writes the copy back only where the source calls `save_users`.
 */
module Accounts {
  import opened Common

  /** A stored role: the two the UI offers, or none (`role = new_role` with nothing chosen). */
  datatype Role = Admin | Operator | Unassigned

  /** One entry of `users.json`: the password's hash and the role. */
  datatype UserRecord = UserRecord(password: string, role: Role)

  type Users = map<string, UserRecord>

  /** The session's `auth_state`. */
  datatype AuthState = AuthState(loggedIn: bool, username: Option<string>, role: Option<Role>)

  /** What an operation reports back (the status message it returns). */
  datatype Status =
    | Done           // "✅ ..."
    | AccessDenied   // "Akses ditolak."
    | EmptyField     // username or password left empty
    | NoSelection    // no user selected
    | DuplicateName  // "Username ... sudah ada."
    | LastAdmin      // "Tidak dapat menghapus admin terakhir."
    | MissingUser    // the selected user is not in the store (`users.pop` / `users[...]` raise)

  predicate IsAdmin(caller: AuthState)
  {
    caller.role == Some(Admin)
  }

  /** The users whose stored role is admin. */
  function AdminNames(users: Users): set<string>
  {
    set name | name in users && users[name].role == Admin
  }

  /** `sum(1 for u in users.values() if u['role'] == 'admin')`. */
  function AdminCount(users: Users): nat
  {
    |AdminNames(users)|
  }

  /** The name an update ends with: the new one when given, otherwise the selected one. */
  function FinalName(selected: string, newUser: string): string
  {
    if newUser != "" then newUser else selected
  }

  /** The store after `selected`'s entry is popped and `record` stored under `final`. */
  function Replaced(users: Users, selected: string, final: string, record: UserRecord): (r: Users)
    ensures r.Keys == users.Keys - {selected} + {final}
    ensures r[final] == record
    ensures forall name :: name in users && name != selected && name != final ==> name in r && r[name] == users[name]
  {
    (users - {selected})[final := record]
  }

  /** Removing one user takes one admin off the count exactly when that user was an admin. */
  lemma RemoveUserAdminCount(users: Users, name: string)
    requires name in users
    ensures AdminCount(users - {name}) == AdminCount(users) - (if users[name].role == Admin then 1 else 0)
  {
    assert AdminNames(users - {name}) == AdminNames(users) - {name};
  }

  /**
   * A successful delete keeps an admin: it only removes an admin when there are at least
   * two of them.
   */
  lemma DeleteKeepsAnAdmin(users: Users, name: string)
    requires name in users && AdminCount(users) >= 1
    requires !(users[name].role == Admin && AdminCount(users) <= 1)
    ensures AdminCount(users - {name}) >= 1
  {
    RemoveUserAdminCount(users, name);
  }

  /**
   * The update has no such guard: giving the only admin another role leaves no admin at
   * all, whatever the name.
   */
  lemma UpdateCanDemoteLastAdmin(users: Users, selected: string, final: string, record: UserRecord)
    requires AdminNames(users) == {selected} && record.role != Admin
    requires final == selected || final !in users
    ensures AdminCount(Replaced(users, selected, final, record)) == 0
  {
    var r := Replaced(users, selected, final, record);
    forall name | name in r
      ensures r[name].role != Admin
    {
      if name != final {
        assert name in users && name != selected;
        assert name !in AdminNames(users);
      }
    }
    assert AdminNames(r) == {};
  }

  class UserStore {
    /** The contents of `users.json`. */
    var users: Users
    /** `hash_password` (SHA-256, hex-encoded), left abstract. */
    const hash: string -> string

    /** The store `load_users` creates when there is no file: one admin, password "admin123". */
    constructor (hash: string -> string)
      ensures this.hash == hash
      ensures users == map["admin" := UserRecord(hash("admin123"), Admin)]
      ensures AdminCount(users) == 1
    {
      this.hash := hash;
      users := map["admin" := UserRecord(hash("admin123"), Admin)];
      new;
      assert AdminNames(users) == {"admin"};
    }

    /** The credential check of `login_user`: the name is stored with this password's hash. */
    predicate Accepts(username: string, password: string)
      reads this
    {
      username in users && users[username].password == hash(password)
    }

    /**
     * `login_user`: on matching credentials the session logs in under that name with the
     * stored role; otherwise the session state is returned as it was.
     */
    function Login(username: string, password: string, current: AuthState): (s: AuthState)
      reads this
      ensures Accepts(username, password) ==>
                s.loggedIn && s.username == Some(username) && s.role == Some(users[username].role)
      ensures !Accepts(username, password) ==> s == current
    {
      if Accepts(username, password) then AuthState(true, Some(username), Some(users[username].role))
      else current
    }

    /**
     * `add_new_user`: only an admin may add, both fields must be filled in and the name must
     * be new; then exactly that entry is added, with the password hashed.
     */
    method AddNewUser(username: string, password: string, role: Role, caller: AuthState) returns (st: Status)
      modifies this
      ensures st == AccessDenied <==> !IsAdmin(caller)
      ensures st == EmptyField <==> IsAdmin(caller) && (username == "" || password == "")
      ensures st == DuplicateName <==> IsAdmin(caller) && username != "" && password != "" && username in old(users)
      ensures st == Done <==> IsAdmin(caller) && username != "" && password != "" && username !in old(users)
      ensures users == if st == Done then old(users)[username := UserRecord(hash(password), role)] else old(users)
      ensures st == Done ==> Login(username, password, caller) == AuthState(true, Some(username), Some(role))
    {
      if !IsAdmin(caller) {
        return AccessDenied;
      }
      if username == "" || password == "" {
        return EmptyField;
      }
      var loaded := users;
      if username in loaded {
        return DuplicateName;
      }
      loaded := loaded[username := UserRecord(hash(password), role)];
      users := loaded;
      return Done;
    }

    /**
     * `update_user_details`: only an admin may update, a user must be selected and exist,
     * and a new name must not belong to another user; then the entry moves to its final
     * name, keeps its password unless a new one is given, and takes the new role.
     */
    method UpdateUserDetails(selected: string, newUser: string, newPass: string, newRole: Role, caller: AuthState)
      returns (st: Status)
      modifies this
      ensures var final := FinalName(selected, newUser);
              && (st == AccessDenied <==> !IsAdmin(caller))
              && (st == NoSelection <==> IsAdmin(caller) && selected == "")
              && (st == MissingUser <==> IsAdmin(caller) && selected != "" && selected !in old(users))
              && (st == DuplicateName <==> IsAdmin(caller) && selected != "" && selected in old(users)
                                           && final != selected && final in old(users))
              && (st == Done <==> IsAdmin(caller) && selected != "" && selected in old(users)
                                  && (final == selected || final !in old(users)))
      ensures var final := FinalName(selected, newUser);
              users == if st == Done
                       then Replaced(old(users), selected, final,
                                     UserRecord(if newPass != "" then hash(newPass) else old(users)[selected].password, newRole))
                       else old(users)
      ensures st == Done && newPass != "" ==> Accepts(FinalName(selected, newUser), newPass)
      ensures st == Done && FinalName(selected, newUser) != selected ==> selected !in users
    {
      if !IsAdmin(caller) {
        return AccessDenied;
      }
      if selected == "" {
        return NoSelection;
      }
      var loaded := users;
      if selected !in loaded {
        return MissingUser;
      }
      var userData := loaded[selected];
      loaded := loaded - {selected};
      var final := if newUser != "" then newUser else selected;
      if final != selected && final in loaded {
        loaded := loaded[selected := userData];
        return DuplicateName;
      }
      userData := userData.(password := if newPass != "" then hash(newPass) else userData.password);
      userData := userData.(role := newRole);
      loaded := loaded[final := userData];
      users := loaded;
      return Done;
    }

    /**
     * `delete_user_by_name`: only an admin may delete, a user must be selected and exist,
     * and the last admin stays; then exactly that entry goes.
     */
    method DeleteUserByName(name: string, caller: AuthState) returns (st: Status)
      modifies this
      ensures st == AccessDenied <==> !IsAdmin(caller)
      ensures st == NoSelection <==> IsAdmin(caller) && name == ""
      ensures st == MissingUser <==> IsAdmin(caller) && name != "" && name !in old(users)
      ensures st == LastAdmin <==> IsAdmin(caller) && name != "" && name in old(users)
                                   && old(users)[name].role == Admin && AdminCount(old(users)) <= 1
      ensures st == Done <==> IsAdmin(caller) && name != "" && name in old(users)
                              && !(old(users)[name].role == Admin && AdminCount(old(users)) <= 1)
      ensures users == if st == Done then old(users) - {name} else old(users)
      ensures AdminCount(old(users)) >= 1 ==> AdminCount(users) >= 1
    {
      if !IsAdmin(caller) {
        return AccessDenied;
      }
      if name == "" {
        return NoSelection;
      }
      var loaded := users;
      var adminCount := AdminCount(loaded);
      if name !in loaded {
        return MissingUser;
      }
      if loaded[name].role == Admin && adminCount <= 1 {
        return LastAdmin;
      }
      if adminCount >= 1 {
        DeleteKeepsAnAdmin(loaded, name);
      }
      loaded := loaded - {name};
      users := loaded;
      return Done;
    }
  }
}
