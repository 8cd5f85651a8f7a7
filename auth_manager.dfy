/**
 * Registration and login against the user table (`users.csv`: one row per
 * user, a username and a password hash).
 *
 * The table is the state of `AuthManager` — what `load_users` reads and
 * `save_users` overwrites — and `saves` counts the overwrites. The password
 * hash (SHA-256 in the source) is a function given at construction: nothing
 * here depends on which function it is.
 */
module Auth {
  import opened Wrappers
  import ActionLog

  /** A row of the user table: (username, password_hash). */
  type Row = (string, string)

  const AdminName := "admin"
  const AdminPassword := "admin123"

  const RegisterOk := "Registration successful."
  const RegisterTaken := "Registration failed: Username already exists."
  const LoginOk := "Login successful."
  const LoginFailed := "Login failed: Invalid username or password."

  /** `name in users["username"].values`. */
  predicate HasUser(users: seq<Row>, name: string)
  {
    exists i :: 0 <= i < |users| && users[i].0 == name
  }

  /** The first row for `name`: the row whose hash `.iloc[0]` picks. */
  function FirstRow(users: seq<Row>, name: string): (r: Option<nat>)
    ensures r.Some? ==> r.value < |users| && users[r.value].0 == name
    ensures r.Some? ==> forall j :: 0 <= j < r.value ==> users[j].0 != name
    ensures r.None? <==> !HasUser(users, name)
  {
    if users == [] then None
    else if users[0].0 == name then Some(0)
    else
      match FirstRow(users[1..], name)
      case None => None
      case Some(i) => Some(i + 1)
  }

  /** Appending a row leaves every existing user's first row where it was; a new name's first row is the new one. */
  lemma {:induction false} FirstRowAfterAppend(users: seq<Row>, row: Row, name: string)
    ensures HasUser(users, name) ==> FirstRow(users + [row], name) == FirstRow(users, name)
    ensures !HasUser(users, name) && row.0 == name ==> FirstRow(users + [row], name) == Some(|users|)
    ensures !HasUser(users, name) && row.0 != name ==> FirstRow(users + [row], name).None?
  {
    if users != [] {
      assert (users + [row])[1..] == users[1..] + [row];
      FirstRowAfterAppend(users[1..], row, name);
      if users[0].0 != name {
        assert HasUser(users, name) ==> HasUser(users[1..], name) by {
          if HasUser(users, name) {
            var i :| 0 <= i < |users| && users[i].0 == name;
            assert users[1..][i - 1].0 == name;
          }
        }
        assert HasUser(users[1..], name) ==> HasUser(users, name) by {
          if HasUser(users[1..], name) {
            var i :| 0 <= i < |users[1..]| && users[1..][i].0 == name;
            assert users[i + 1].0 == name;
          }
        }
      }
    } else {
      assert [] + [row] == [row];
    }
  }

  /**
   * `login(name, password)`: successful exactly when `name` is in the table
   * and the password's hash equals the hash stored in its first row.
   */
  function LoginMessage(users: seq<Row>, hash: string -> string, name: string, password: string): (r: string)
    ensures r == LoginOk || r == LoginFailed
    ensures r == LoginOk <==> HasUser(users, name) && users[FirstRow(users, name).value].1 == hash(password)
  {
    match FirstRow(users, name)
    case None => LoginFailed
    case Some(i) => if hash(password) == users[i].1 then LoginOk else LoginFailed
  }

  /** No username appears in two rows. */
  ghost predicate UniqueNames(users: seq<Row>)
  {
    forall i, j :: 0 <= i < j < |users| ==> users[i].0 != users[j].0
  }

  /** A registration that goes through keeps usernames unique. */
  lemma RegisterKeepsNamesUnique(users: seq<Row>, name: string, h: string)
    requires UniqueNames(users) && !HasUser(users, name)
    ensures UniqueNames(users + [(name, h)])
  {
    var after := users + [(name, h)];
    forall i, j | 0 <= i < j < |after|
      ensures after[i].0 != after[j].0
    {
      if j == |users| {
        assert after[i] == users[i];
      }
    }
  }

  /** Once `name` is registered with `password`, logging in with the same pair succeeds. */
  lemma LoginAfterRegister(users: seq<Row>, hash: string -> string, name: string, password: string)
    requires !HasUser(users, name)
    ensures LoginMessage(users + [(name, hash(password))], hash, name, password) == LoginOk
  {
    FirstRowAfterAppend(users, (name, hash(password)), name);
    assert (users + [(name, hash(password))])[|users|].0 == name;
  }

  /** Registering `name` changes nobody else's login answer. */
  lemma RegisterKeepsOtherLogins(users: seq<Row>, hash: string -> string, name: string, h: string, other: string, password: string)
    requires !HasUser(users, name) && other != name
    ensures LoginMessage(users + [(name, h)], hash, other, password) == LoginMessage(users, hash, other, password)
  {
    FirstRowAfterAppend(users, (name, h), other);
    if HasUser(users, other) {
      var i := FirstRow(users, other).value;
      assert (users + [(name, h)])[i] == users[i];
    }
  }

  /**
   * Every answer of `register` and `login` is a non-empty string (the four
   * messages above), so the logging wrapper reports each call as successful,
   * whether or not the registration or login went through.
   */
  lemma RegisterAlwaysLogsSuccess(args: seq<string>, msg: string)
    requires msg != ""
    ensures ActionLog.Wrap("register", args, ActionLog.Returned(ActionLog.StrValue(msg))).0 == "registered successfully\n"
  {
    ActionLog.TablePhrases();
    ActionLog.NonEmptyStringLogsSuccess("register", args, msg);
  }

  lemma LoginAlwaysLogsSuccess(args: seq<string>, msg: string)
    requires msg != ""
    ensures ActionLog.Wrap("login", args, ActionLog.Returned(ActionLog.StrValue(msg))).0 == "Login successfully\n"
  {
    ActionLog.LoginUsesDefaultPhrase();
    ActionLog.NonEmptyStringLogsSuccess("login", args, msg);
  }

  /** The two answers of `register` are both logged as successful. */
  lemma RegisterAnswersLogSuccess(args: seq<string>)
    ensures ActionLog.Wrap("register", args, ActionLog.Returned(ActionLog.StrValue(RegisterOk))).0 == "registered successfully\n"
    ensures ActionLog.Wrap("register", args, ActionLog.Returned(ActionLog.StrValue(RegisterTaken))).0 == "registered successfully\n"
  {
    RegisterAlwaysLogsSuccess(args, RegisterOk);
    RegisterAlwaysLogsSuccess(args, RegisterTaken);
  }

  /** The two answers of `login` are both logged as successful. */
  lemma LoginAnswersLogSuccess(args: seq<string>)
    ensures ActionLog.Wrap("login", args, ActionLog.Returned(ActionLog.StrValue(LoginOk))).0 == "Login successfully\n"
    ensures ActionLog.Wrap("login", args, ActionLog.Returned(ActionLog.StrValue(LoginFailed))).0 == "Login successfully\n"
  {
    LoginAlwaysLogsSuccess(args, LoginOk);
    LoginAlwaysLogsSuccess(args, LoginFailed);
  }

  class AuthManager {
    const userFile: string
    /** `hash_password`. */
    const hash: string -> string
    /** The rows of the user file, as `load_users` returns them (an absent file reads as no rows). */
    var users: seq<Row>
    /** How many times `save_users` has written the file. */
    var saves: nat

    /** Construction seeds the default admin when the table is empty. */
    constructor (userFile: string, hash: string -> string, stored: seq<Row>)
      ensures this.userFile == userFile && this.hash == hash
      ensures stored == [] ==> users == [(AdminName, hash(AdminPassword))] && saves == 1
      ensures stored != [] ==> users == stored && saves == 0
    {
      this.userFile := userFile;
      this.hash := hash;
      users := stored;
      saves := 0;
      new;
      InitializeDefaultUser();
    }

    /** `initialize_default_user`: an empty table gets the one admin row; any other table is left alone. */
    method InitializeDefaultUser()
      modifies this`users, this`saves
      ensures old(users) == [] ==> users == [(AdminName, hash(AdminPassword))] && saves == old(saves) + 1
      ensures old(users) != [] ==> users == old(users) && saves == old(saves)
    {
      var current := users;
      if current == [] {
        var admin := [(AdminName, hash(AdminPassword))];
        users := admin;
        saves := saves + 1;
      }
    }

    /** `register(name, password)`: refuse a taken name, else save the table with one more row. */
    method Register(name: string, password: string) returns (msg: string)
      modifies this`users, this`saves
      ensures HasUser(old(users), name) ==> msg == RegisterTaken && users == old(users) && saves == old(saves)
      ensures !HasUser(old(users), name) ==>
        msg == RegisterOk && users == old(users) + [(name, hash(password))] && saves == old(saves) + 1
    {
      var current := users;
      var found := FirstRow(current, name);
      if found.Some? {
        return RegisterTaken;
      }
      var updated := current + [(name, hash(password))];
      users := updated;
      saves := saves + 1;
      return RegisterOk;
    }

    /** `login(name, password)`: reads the table and changes nothing. */
    method Login(name: string, password: string) returns (msg: string)
      ensures msg == LoginMessage(users, hash, name, password)
      ensures msg == LoginOk <==> HasUser(users, name) && users[FirstRow(users, name).value].1 == hash(password)
    {
      var current := users;
      var found := FirstRow(current, name);
      if found.Some? {
        var hashed := hash(password);
        var stored := current[found.value].1;
        if hashed == stored {
          return LoginOk;
        }
      }
      return LoginFailed;
    }
  }
}
