/** The credential store: a map from user names to records, plus one
    anonymous record that any password opens. */
module Users {
  import opened Wrappers
  import opened Paths

  /** An FTPUser: a password and a sandbox root directory. */
  datatype User = User(pass: string, root: CanonicalPath)

  /** FTPUser's constructor: an empty root path (None) falls back to the
      process's current directory `cwd`. */
  function NewUser(pass: string, root: Option<CanonicalPath>, cwd: CanonicalPath): (u: User)
    ensures u.pass == pass
    ensures u.root == if root.None? then cwd else root.value
  {
    User(pass, if root.None? then cwd else root.value)
  }

  /** `isUsernameAnonymousUser`. */
  predicate IsAnonymousName(name: string) {
    name == "" || name == "ftp" || name == "anonymous"
  }

  lemma AnonymousNamesExactly(name: string)
    ensures IsAnonymousName(name) <==> name in {"", "ftp", "anonymous"}
  {
  }

  /** The named accounts: an anonymous name never has an entry of its own. */
  type Accounts = m: map<string, User> | forall n :: n in m ==> !IsAnonymousName(n)

  class UserDatabase {
    var users: Accounts
    var anonymous: Option<User>

    constructor ()
      ensures users == map[] && anonymous == None
    {
      users := map[];
      anonymous := None;
    }

    /** `getUser`: an anonymous name yields the anonymous record whatever the
        password; any other name yields its record only when present with
        exactly this password. */
    function GetUser(name: string, password: string): (r: Option<User>)
      reads this
      ensures IsAnonymousName(name) ==> r == anonymous
      ensures !IsAnonymousName(name) ==>
        (r.Some? <==> name in users && users[name].pass == password)
      ensures !IsAnonymousName(name) && r.Some? ==> r.value == users[name]
    {
      if IsAnonymousName(name) then anonymous
      else if name in users && users[name].pass == password then Some(users[name])
      else None
    }

    /** `addUser`: the anonymous record can be created once; any other name
        is inserted only when absent. On success a later GetUser with the same
        password returns the new record. */
    method AddUser(name: string, password: string, root: Option<CanonicalPath>, cwd: CanonicalPath) returns (r: Option<User>)
      modifies this`users, this`anonymous
      ensures IsAnonymousName(name) && old(anonymous).Some? ==>
        r == None && users == old(users) && anonymous == old(anonymous)
      ensures IsAnonymousName(name) && old(anonymous).None? ==>
        r == Some(NewUser(password, root, cwd)) && anonymous == r && users == old(users)
      ensures !IsAnonymousName(name) && name in old(users) ==>
        r == None && users == old(users) && anonymous == old(anonymous)
      ensures !IsAnonymousName(name) && name !in old(users) ==>
        r == Some(NewUser(password, root, cwd)) && anonymous == old(anonymous)
        && users == old(users)[name := r.value]
      ensures r.Some? ==> GetUser(name, password) == r
    {
      if IsAnonymousName(name) {
        if anonymous.Some? {
          r := None;
        } else {
          anonymous := Some(NewUser(password, root, cwd));
          r := anonymous;
        }
      } else {
        if name !in users {
          var account := NewUser(password, root, cwd);
          users := users[name := account];
          r := Some(account);
        } else {
          r := None;
        }
      }
    }
  }
}
