/** The local account table behind the signup and login handlers (script.js lines 79-104). */
module Accounts {
  import opened Wrappers
  import opened Text

  datatype SignupStatus = MissingFields | UserExists | SignedUp

  /** `users[name]` is truthy. */
  predicate Registered(users: map<string, string>, name: string) {
    name in users && users[name] != ""
  }

  /** What only signups can produce: no empty name, no empty password. */
  ghost predicate WellFormed(users: map<string, string>) {
    forall name :: name in users ==> name != "" && users[name] != ""
  }

  /** In a table built by signups, a name is taken exactly when it is a key. */
  lemma RegisteredIsMembership(users: map<string, string>, name: string)
    requires WellFormed(users)
    ensures Registered(users, name) <==> name in users
  {
  }

  /**
   * The signup handler on trimmed inputs: the notice it gives and the table
   * it leaves in storage.
   */
  function Signup(users: map<string, string>, rawName: string, rawPassword: string): (r: (SignupStatus, map<string, string>))
    ensures r.0 == MissingFields <==> Trim(rawName) == "" || Trim(rawPassword) == ""
    ensures r.0 == UserExists <==> r.0 != MissingFields && Registered(users, Trim(rawName))
    ensures r.0 != SignedUp ==> r.1 == users
    ensures r.0 == SignedUp ==> r.1.Keys == users.Keys + {Trim(rawName)} && r.1[Trim(rawName)] == Trim(rawPassword)
  {
    var name, password := Trim(rawName), Trim(rawPassword);
    if name == "" || password == "" then (MissingFields, users)
    else if Registered(users, name) then (UserExists, users)
    else (SignedUp, users[name := password])
  }

  /** A signup never changes an existing account, and keeps the table well formed. */
  lemma SignupKeepsAccounts(users: map<string, string>, rawName: string, rawPassword: string)
    requires WellFormed(users)
    ensures WellFormed(Signup(users, rawName, rawPassword).1)
    ensures forall name :: name in users ==>
      name in Signup(users, rawName, rawPassword).1 && Signup(users, rawName, rawPassword).1[name] == users[name]
  {
  }

  /** The login check: the trimmed name is registered and its password equals the trimmed password. */
  function LoginAs(users: map<string, string>, rawName: string, rawPassword: string): (r: Option<string>)
    ensures r.Some? <==> Registered(users, Trim(rawName)) && users[Trim(rawName)] == Trim(rawPassword)
    ensures r.Some? ==> r.value == Trim(rawName)
  {
    var name, password := Trim(rawName), Trim(rawPassword);
    if !Registered(users, name) || users[name] != password then None else Some(name)
  }

  /**
   * Right after a successful signup, logging in succeeds with the same
   * inputs and with their trimmed forms, which are what was stored.
   */
  lemma SignupThenLogin(users: map<string, string>, rawName: string, rawPassword: string)
    requires Signup(users, rawName, rawPassword).0 == SignedUp
    ensures LoginAs(Signup(users, rawName, rawPassword).1, rawName, rawPassword) == Some(Trim(rawName))
    ensures LoginAs(Signup(users, rawName, rawPassword).1, Trim(rawName), Trim(rawPassword)) == Some(Trim(rawName))
  {
    TrimIdempotent(rawName);
    TrimIdempotent(rawPassword);
  }

  /**
   * The members every plain JavaScript object inherits from
   * `Object.prototype`. `JSON.parse` builds the table as such an object, so
   * `users[name]` finds these even though no signup stored them, and every
   * one of them is truthy.
   */
  const InheritedNames: set<string> := {
    "constructor", "__proto__", "__defineGetter__", "__defineSetter__",
    "__lookupGetter__", "__lookupSetter__", "hasOwnProperty", "isPrototypeOf",
    "propertyIsEnumerable", "toLocaleString", "toString", "valueOf"
  }

  /** `if (users[username])` as script.js evaluates it: own entries and inherited members alike. */
  predicate TakenAsWritten(users: map<string, string>, name: string) {
    Registered(users, name) || name in InheritedNames
  }

  /** The signup handler exactly as written, with the inherited members in the lookup. */
  function SignupAsWritten(users: map<string, string>, rawName: string, rawPassword: string): (r: (SignupStatus, map<string, string>))
    ensures r.0 != SignedUp ==> r.1 == users
    ensures r.0 == SignedUp ==> Trim(rawName) !in InheritedNames && r.1 == users[Trim(rawName) := Trim(rawPassword)]
    ensures Trim(rawName) !in InheritedNames ==> r == Signup(users, rawName, rawPassword)
  {
    var name, password := Trim(rawName), Trim(rawPassword);
    if name == "" || password == "" then (MissingFields, users)
    else if TakenAsWritten(users, name) then (UserExists, users)
    else (SignedUp, users[name := password])
  }

  /** As written, an inherited member's name is refused whatever the table holds. */
  lemma InheritedNameAlwaysRefused(users: map<string, string>, rawName: string, rawPassword: string)
    requires Trim(rawName) in InheritedNames && Trim(rawPassword) != ""
    ensures SignupAsWritten(users, rawName, rawPassword).0 == UserExists
  {
    InheritedNamesAreNotBlank();
    var name, password := Trim(rawName), Trim(rawPassword);
    assert name != "" && password != "" && TakenAsWritten(users, name);
  }

  lemma InheritedNamesAreNotBlank()
    ensures "" !in InheritedNames
  {
  }

  /**
   * On an empty table, signing up as "constructor" is refused as an existing
   * user by the handler as written, while the intended check accepts it.
   */
  lemma InheritedNameRefused(rawPassword: string)
    requires Trim(rawPassword) != ""
    ensures SignupAsWritten(map[], "constructor", rawPassword).0 == UserExists
    ensures Signup(map[], "constructor", rawPassword).0 == SignedUp
  {
    var name := "constructor";
    assert name[0] == 'c' && name[|name| - 1] == 'r';
    TrimUnpadded(name);
    ConstructorIsInherited();
    InheritedNameAlwaysRefused(map[], name, rawPassword);
  }

  lemma ConstructorIsInherited()
    ensures "constructor" in InheritedNames
  {
  }
}
