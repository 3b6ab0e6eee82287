/** The `Usuario` record: a login name, a plain-text password and the
    base/premium tier flag, with its setters and the credential check. */
module Usuarios {

  /** The record as the constructor leaves it: each field holds the argument
      given for it. */
  datatype Usuario = Usuario(username: string, password: string, isPremium: bool)

  /** `setUsername`: only the name changes. */
  function SetUsername(u: Usuario, username: string): (v: Usuario)
    ensures v.username == username
    ensures v.password == u.password && v.isPremium == u.isPremium
  {
    u.(username := username)
  }

  /** `setPassword`: only the password changes. */
  function SetPassword(u: Usuario, password: string): (v: Usuario)
    ensures v.password == password
    ensures v.username == u.username && v.isPremium == u.isPremium
  {
    u.(password := password)
  }

  /** `setPremium`: only the tier flag changes. */
  function SetPremium(u: Usuario, isPremium: bool): (v: Usuario)
    ensures v.isPremium == isPremium
    ensures v.username == u.username && v.password == u.password
  {
    u.(isPremium := isPremium)
  }

  /** `login(inputUsername, inputPassword)`: both strings must equal the stored
      ones exactly, letter case included; the tier plays no part, so the
      check succeeds exactly when the user is the record with those
      credentials and its own tier. */
  function Login(u: Usuario, inputUsername: string, inputPassword: string): (ok: bool)
    ensures ok <==> u == Usuario(inputUsername, inputPassword, u.isPremium)
  {
    u.username == inputUsername && u.password == inputPassword
  }

  /** After a password change the new password is accepted and any other one
      is refused. */
  lemma LoginAfterSetPassword(u: Usuario, password: string, other: string)
    ensures Login(SetPassword(u, password), u.username, password)
    ensures other != password ==> !Login(SetPassword(u, password), u.username, other)
  {
  }

  /** `logout` only prints a message: no field of the user changes. */
  function Logout(u: Usuario): (v: Usuario)
    ensures v.username == u.username && v.password == u.password && v.isPremium == u.isPremium
  {
    u
  }

  // ---------------------------------------------------------------------
  // Lists of users

  /** No two users share a login name. */
  predicate UsernamesUnique(us: seq<Usuario>) {
    forall i, j :: 0 <= i < j < |us| ==> us[i].username != us[j].username
  }

  /** Every user whose name matches `updated`'s is replaced by `updated`; the
      others, and the order, stay as they were. */
  function ReplaceByUsername(us: seq<Usuario>, updated: Usuario): (vs: seq<Usuario>)
    ensures |vs| == |us|
    ensures forall k :: 0 <= k < |us| && us[k].username == updated.username ==> vs[k] == updated
    ensures forall k :: 0 <= k < |us| && us[k].username != updated.username ==> vs[k] == us[k]
  {
    seq(|us|, k requires 0 <= k < |us| => if us[k].username == updated.username then updated else us[k])
  }

  /** With unique names, replacing by name touches only the one user at index `i`
      who carries that name. */
  lemma ReplaceByUsernameUnique(us: seq<Usuario>, i: nat, updated: Usuario)
    requires UsernamesUnique(us)
    requires i < |us| && us[i].username == updated.username
    ensures ReplaceByUsername(us, updated) == us[i := updated]
  {
  }
}
