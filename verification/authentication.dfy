/**
  The broker's CONNECT credential check (`authenticate` hook, server.ts).

  The hook receives an optional user name and an optional password and
  either admits the client or refuses it with CONNACK return code 5
  ("not authorized", section 3.2.2.3 of MQTT 3.1.1). The user table is a
  fixed record from user name to password; a name that is not in the table
  looks up to `undefined`, and the comparison with the supplied password is
  strict equality, so `undefined === undefined` admits an unknown user who
  sends no password.
 */
module Authentication {
  import opened Wrappers

  /** CONNACK return code 5: the client is not authorized to connect. */
  const NotAuthorized: int := 5

  /** The built-in user table. */
  const Users: map<string, string> :=
    map["admin" := "secret123", "device1" := "dev1pass", "device2" := "dev2pass"]

  datatype Verdict = Accept | Reject(returnCode: int)

  /** `table[name]`: the stored password, or `undefined` for a name not in the table. */
  function Lookup(table: map<string, string>, name: string): (r: Option<string>)
    ensures r.Some? <==> name in table
    ensures r.Some? ==> r.value == table[name]
  {
    if name in table then Some(table[name]) else None
  }

  /** JavaScript truthiness of an optional user name: absent and "" are falsy. */
  function Falsy(username: Option<string>): (r: bool)
    ensures r <==> username in {None, Some("")}
  {
    username.None? || username.value == ""
  }

  /**
    The hook's decision. `password` is the password buffer already turned into
    text (`password?.toString()`), or None when the CONNECT carried none.
   */
  function Authenticate(table: map<string, string>, username: Option<string>, password: Option<string>): (v: Verdict)
    ensures v.Reject? ==> v.returnCode == NotAuthorized
    ensures v.Reject? ==> !Falsy(username)
    ensures Falsy(username) ==> v == Accept
  {
    if Falsy(username) then Accept
    else if Lookup(table, username.value) == password then Accept
    else Reject(NotAuthorized)
  }

  /** The hook as the server installs it, over the built-in table. */
  function AuthenticateConnect(username: Option<string>, password: Option<string>): (v: Verdict)
    ensures v == Accept || v == Reject(NotAuthorized)
  {
    Authenticate(Users, username, password)
  }

  // ---------------------------------------------------------------------
  // The decision, case by case
  // ---------------------------------------------------------------------

  /** No user name, or an empty one: admitted whatever the password. */
  lemma AnonymousAccepted(table: map<string, string>, username: Option<string>, password: Option<string>)
    requires Falsy(username)
    ensures Authenticate(table, username, password) == Accept
  {
  }

  /** A known user with the stored password is admitted. */
  lemma KnownUserRightPasswordAccepted(table: map<string, string>, name: string)
    requires name != "" && name in table
    ensures Authenticate(table, Some(name), Some(table[name])) == Accept
  {
  }

  /** A known user with any other password, or with none, is refused with code 5. */
  lemma KnownUserWrongPasswordRejected(table: map<string, string>, name: string, password: Option<string>)
    requires name != "" && name in table
    requires password != Some(table[name])
    ensures Authenticate(table, Some(name), password) == Reject(NotAuthorized)
  {
  }

  /** An unknown non-empty user name is admitted exactly when no password is sent. */
  lemma UnknownUserAcceptedIffNoPassword(table: map<string, string>, name: string, password: Option<string>)
    requires name != "" && name !in table
    ensures Authenticate(table, Some(name), password) == Accept <==> password.None?
    ensures password.Some? ==> Authenticate(table, Some(name), password) == Reject(NotAuthorized)
  {
  }

  /**
    The whole decision in one statement: a client is admitted iff its user
    name is falsy, or the supplied password is exactly what the table holds
    for that name (both absent counting as equal); otherwise it is refused
    with code 5 and no other code.
   */
  ghost predicate Admissible(table: map<string, string>, username: Option<string>, password: Option<string>) {
    || Falsy(username)
    || (username.value in table && password == Some(table[username.value]))
    || (username.value !in table && password == None)
  }

  lemma AuthenticateAdmitsExactly(table: map<string, string>, username: Option<string>, password: Option<string>)
    ensures Authenticate(table, username, password) == Accept <==> Admissible(table, username, password)
    ensures Authenticate(table, username, password) in {Accept, Reject(NotAuthorized)}
  {
  }

  /**
    Over the built-in table: "admin"/"secret123" is admitted, "admin" with a
    wrong password is refused, and a client with no credentials is admitted.
   */
  lemma BuiltInTableExamples()
    ensures AuthenticateConnect(Some("admin"), Some("secret123")) == Accept
    ensures AuthenticateConnect(Some("device2"), Some("dev2pass")) == Accept
    ensures AuthenticateConnect(Some("admin"), Some("wrongpass")) == Reject(NotAuthorized)
    ensures AuthenticateConnect(Some("admin"), None) == Reject(NotAuthorized)
    ensures AuthenticateConnect(None, None) == Accept
    ensures AuthenticateConnect(Some("guest"), None) == Accept
    ensures AuthenticateConnect(Some("guest"), Some("")) == Reject(NotAuthorized)
  {
  }
}
