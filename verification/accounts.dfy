/** Authentication in the repository layer (database.js): `loginUser` and the
    admin password rotation `updateAdminPassword`. */
module Accounts {
  import opened Text
  import opened Bcrypt
  import opened Schema

  /** The fixed user name of the administrator account. */
  const AdminName := "admin"

  /** The shortest new password `updateAdminPassword` accepts, in UTF-16 units. */
  const MinPasswordLength := 6

  /** `loginUser` result: `{success: true, role}` or one of its two specific
      failure messages. */
  datatype LoginReply = LoggedIn(role: Role) | UnknownUser | WrongPassword

  /** `loginUser(username, password)`: look the user up by name, then verify the
      password against the stored hash. */
  function Login(s: Store, username: string, password: string): (r: LoginReply)
    ensures r == UnknownUser <==> username !in s.users
    ensures r.LoggedIn? <==> username in s.users && Verify(password, s.users[username].hash)
    ensures r.LoggedIn? ==> r.role == s.users[username].role
  {
    if username !in s.users then UnknownUser
    else
      var user := s.users[username];
      if Verify(password, user.hash) then LoggedIn(user.role) else WrongPassword
  }

  /** `updateAdminPassword` results, one per guard. */
  datatype Rotation = Rotated | AdminMissing | OldPasswordRejected | NewPasswordTooShort

  datatype RotationResponse = RotationResponse(reply: Rotation, store: Store)

  /** `!newPassword || newPassword.length < 6`; the empty string is the falsy case. */
  predicate TooShort(password: string) {
    Utf16Length(password) < MinPasswordLength
  }

  /** `updateAdminPassword(oldPassword, newPassword)`. The guards run in order: the
      admin row must exist, then the old password must verify, then the new one
      must be long enough; only then is the hash replaced. `salt` stands for the
      randomness `bcrypt.hashSync` draws. */
  function RotateAdminPassword(s: Store, oldPassword: string, newPassword: string, salt: int)
    : (r: RotationResponse)
    requires Valid(s)
    ensures Valid(r.store)
    ensures r.reply == AdminMissing <==> AdminName !in s.users
    ensures r.reply == OldPasswordRejected <==>
      AdminName in s.users && !Verify(oldPassword, s.users[AdminName].hash)
    ensures r.reply == NewPasswordTooShort <==>
      AdminName in s.users && Verify(oldPassword, s.users[AdminName].hash) && TooShort(newPassword)
    ensures r.reply != Rotated ==> r.store == s
    ensures r.reply == Rotated ==>
      r.store == s.(users := s.users[AdminName := Account(Hash(newPassword, salt), Admin)])
  {
    if AdminName !in s.users then RotationResponse(AdminMissing, s)
    else
      var admin := s.users[AdminName];
      if !Verify(oldPassword, admin.hash) then RotationResponse(OldPasswordRejected, s)
      else if TooShort(newPassword) then RotationResponse(NewPasswordTooShort, s)
      else RotationResponse(Rotated, s.(users := s.users[AdminName := admin.(hash := Hash(newPassword, salt))]))
  }

  /** After a successful rotation the administrator logs in with the new password
      and gets the admin role. */
  lemma RotateThenLogin(s: Store, oldPassword: string, newPassword: string, salt: int)
    requires Valid(s) && RotateAdminPassword(s, oldPassword, newPassword, salt).reply == Rotated
    ensures Login(RotateAdminPassword(s, oldPassword, newPassword, salt).store, AdminName, newPassword)
      == LoggedIn(Admin)
  {
    HashThenVerify(newPassword, salt);
  }

  /** A rotation changes only the administrator's hash: every other account and the
      whole task catalog stay as they were. */
  lemma RotateTouchesOnlyAdmin(s: Store, oldPassword: string, newPassword: string, salt: int, who: string)
    requires Valid(s) && who != AdminName
    ensures RotateAdminPassword(s, oldPassword, newPassword, salt).store.users.Keys == s.users.Keys
    ensures who in s.users ==>
      RotateAdminPassword(s, oldPassword, newPassword, salt).store.users[who] == s.users[who]
    ensures RotateAdminPassword(s, oldPassword, newPassword, salt).store.(users := s.users) == s
  {
  }
}
