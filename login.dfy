/** POST /api/auth/login (app/api/auth/login/route.ts): the credential check. A field that is
    absent or empty is "". */
module LoginRoute {
  import opened Common
  import opened Records
  import UsersRoute

  datatype Session = Session(user: PublicUser, message: string)

  const MissingCredentials := "Vui lòng nhập tên đăng nhập và mật khẩu"
  const UnknownUser := "Tên đăng nhập không tồn tại"
  const WrongPassword := "Mật khẩu không chính xác"
  const Welcome := "Đăng nhập thành công"

  predicate HasUsername(users: seq<User>, username: string)
  {
    exists u :: u in users && u.username == username
  }

  /** Both fields are required; then the first user with the username must exist, and only
      then is its password compared, exactly. The reply carries the user without password. */
  function Login(users: seq<User>, username: string, password: string): (r: Reply<Session>)
    ensures username == "" || password == "" ==> r == Err(400, MissingCredentials)
    ensures username != "" && password != "" && !HasUsername(users, username) ==>
              r == Err(401, UnknownUser)
    ensures username != "" && password != "" && HasUsername(users, username) ==>
              exists u :: IsFirst(users, UsersRoute.UsernameIs(username), u) &&
                          if u.password == password then r == Ok(200, Session(WithoutPassword(u), Welcome))
                          else r == Err(401, WrongPassword)
  {
    if username == "" || password == "" then Err(400, MissingCredentials)
    else
      var user := Find(users, UsersRoute.UsernameIs(username));
      FindIsFirst(users, UsersRoute.UsernameIs(username));
      if user.None? then
        assert forall u :: u in users ==> !UsersRoute.UsernameIs(username)(u);
        Err(401, UnknownUser)
      else if user.value.password != password then Err(401, WrongPassword)
      else Ok(200, Session(WithoutPassword(user.value), Welcome))
  }

  /** A login succeeds exactly when the password equals the one stored for the first user with
      that username, and then it returns what GET /api/users?username= returns for that name. */
  lemma LoginAgreesWithLookup(users: seq<User>, progress: seq<Progress>, bookmarks: seq<Bookmark>,
                              username: string, password: string)
    requires username != "" && password != ""
    ensures Login(users, username, password).Ok? <==>
              HasUsername(users, username) &&
              Find(users, UsersRoute.UsernameIs(username)).value.password == password
    ensures Login(users, username, password).Ok? ==>
              UsersRoute.Get(users, progress, bookmarks, "", username) ==
              Ok(200, UsersRoute.ByName(Login(users, username, password).data.user))
  {
    var p := UsersRoute.UsernameIs(username);
    FindIsFirst(users, p);
    if HasUsername(users, username) {
      var u :| u in users && u.username == username;
      assert p(u);
      var found := Find(users, p).value;
      var w :| IsFirst(users, p, w) &&
               if w.password == password then Login(users, username, password) == Ok(200, Session(WithoutPassword(w), Welcome))
               else Login(users, username, password) == Err(401, WrongPassword);
      FirstIsUnique(users, p, w, found);
    }
  }

  /** An unknown username is refused before any password is looked at: every password gets
      the same answer. */
  lemma UnknownUserIgnoresPassword(users: seq<User>, username: string, password: string, other: string)
    requires username != "" && password != "" && other != "" && !HasUsername(users, username)
    ensures Login(users, username, password) == Login(users, username, other) == Err(401, UnknownUser)
  {
  }
}
